/**
 * The prefix index of the store (flatten.go, keyStore): for every
 * "."-joined prefix of a stored key, the list of stored keys below it.
 * metaKeyAdd and metaKeyDelete keep it; Get reads it to tell a leaf from a
 * branch. The functions here are the new index each of them computes.
 */
module KeyIndex {
  import opened GoStrings

  type KeyStore = map<string, seq<string>>

  /**
   * The "."-joined prefixes of key, shortest first and key itself last: the
   * sliceSubKey values the loops of metaKeyAdd and metaKeyDelete visit. The
   * separator is a hard-coded ".", whatever the store's delimiter.
   */
  function Prefixes(key: string): (r: seq<string>)
    ensures |r| == |Split(key, ".")| && |r| > 0 && r[|r| - 1] == key
  {
    var segs := Split(key, ".");
    JoinSplit(key, ".");
    assert segs[..|segs|] == segs;
    seq(|segs|, i requires 0 <= i < |segs| => Join(segs[..i + 1], "."))
  }

  /** The prefixes of a key are the key itself and every p such that the key starts with p + ".". */
  lemma PrefixShape(p: string, k: string)
    ensures p in Prefixes(k) <==> p == k || p + "." <= k
  {
    var segs := Split(k, ".");
    JoinSplit(k, ".");
    if p in Prefixes(k) && p != k {
      var i :| 0 <= i < |segs| && p == Join(segs[..i + 1], ".");
      assert i < |segs| - 1 by {
        assert segs[..|segs|] == segs;
      }
      assert segs == segs[..i + 1] + segs[i + 1..];
      JoinAppend(segs[..i + 1], segs[i + 1..], ".");
    }
    if p + "." <= k && p != k {
      var rest := k[|p| + 1..];
      assert k == p + ['.'] + rest;
      SplitConcat(p, rest, '.');
      var n := |Split(p, ".")|;
      assert segs[..n] == Split(p, ".");
      JoinSplit(p, ".");
      assert Prefixes(k)[n - 1] == p;
    }
  }

  /** A later prefix extends an earlier one past a ".", so no prefix is visited twice. */
  lemma PrefixesGrow(k: string, i: nat, j: nat)
    requires i < j < |Prefixes(k)|
    ensures Prefixes(k)[i] + "." <= Prefixes(k)[j]
    ensures Prefixes(k)[i] != Prefixes(k)[j]
  {
    var segs := Split(k, ".");
    var a := segs[..i + 1];
    var b := segs[i + 1..j + 1];
    assert segs[..j + 1] == a + b;
    JoinAppend(a, b, ".");
  }

  ghost predicate NoDup(s: seq<string>) {
    forall i, j :: 0 <= i < j < |s| ==> s[i] != s[j]
  }

  /**
   * ks indexes exactly the keys in keys: every list is non-empty and without
   * repeats and holds stored keys that have the list's key as a prefix, and
   * every prefix of every stored key has a list that holds that key.
   */
  ghost predicate IsIndexOf(keys: set<string>, ks: KeyStore) {
    && (forall p :: p in ks ==> |ks[p]| > 0 && NoDup(ks[p]))
    && (forall p, k :: p in ks && k in ks[p] ==> k in keys && p in Prefixes(k))
    && (forall k, p :: k in keys && p in Prefixes(k) ==> p in ks && k in ks[p])
  }

  /** Under the index, p has a list exactly when some stored key has p as a prefix. */
  lemma IndexedPrefix(keys: set<string>, ks: KeyStore, p: string)
    requires IsIndexOf(keys, ks)
    ensures p in ks <==> exists k :: k in keys && p in Prefixes(k)
  {
    if p in ks {
      var k := ks[p][0];
      assert k in ks[p];
      assert k in keys && p in Prefixes(k);
    }
  }

  /** The list of p after metaKeyAdd's append: key at the end unless it was already there. */
  function Appended(ks: KeyStore, p: string, key: string): seq<string> {
    if p in ks && key in ks[p] then ks[p]
    else (if p in ks then ks[p] else []) + [key]
  }

  /** ks with key appended, where missing, to the list of every prefix in P. */
  function AddUnder(ks: KeyStore, key: string, P: set<string>): KeyStore {
    map p | p in ks.Keys + P :: if p in P then Appended(ks, p, key) else ks[p]
  }

  function PrefixSet(key: string): set<string> {
    set i | 0 <= i < |Prefixes(key)| :: Prefixes(key)[i]
  }

  /** The prefixes the loop has visited before position n. */
  function PrefixesBefore(key: string, n: int): set<string> {
    set i | 0 <= i < n && i < |Prefixes(key)| :: Prefixes(key)[i]
  }

  /** A key is the last of its own prefixes. */
  lemma KeyInPrefixSet(key: string)
    ensures key in PrefixSet(key)
  {
    assert Prefixes(key)[|Prefixes(key)| - 1] == key;
  }

  /**
   * The index after metaKeyAdd(key), without the single-segment block (see
   * MetaKeyAddAsWritten): every prefix of key has a list holding key, and
   * the lists of other keys are as they were.
   */
  function MetaKeyAdded(ks: KeyStore, key: string): (r: KeyStore)
    ensures r.Keys == ks.Keys + PrefixSet(key)
    ensures forall p :: p in PrefixSet(key) ==> key in r[p]
    ensures forall p :: p in ks && p !in PrefixSet(key) ==> r[p] == ks[p]
  {
    AddUnder(ks, key, PrefixSet(key))
  }

  /**
   * The single-segment block at the head of metaKeyAdd and metaKeyDelete:
   * a key without "." that its own list does not hold gets a fresh
   * one-element list, replacing whatever list was there.
   */
  function Seeded(ks: KeyStore, key: string): KeyStore {
    if |Split(key, ".")| == 1 && !(key in ks && key in ks[key]) then ks[key := [key]] else ks
  }

  /**
   * metaKeyAdd as written: the single-segment block, then the loop over the
   * prefixes. Every prefix lists key, but a single-segment key that its own
   * list did not hold is left alone in that list.
   */
  function MetaKeyAddAsWritten(ks: KeyStore, key: string): (r: KeyStore)
    ensures r.Keys == ks.Keys + PrefixSet(key)
    ensures forall p :: p in PrefixSet(key) ==> key in r[p]
    ensures |Split(key, ".")| == 1 && !(key in ks && key in ks[key]) ==> key in r && r[key] == [key]
  {
    KeyInPrefixSet(key);
    AddUnder(Seeded(ks, key), key, PrefixSet(key))
  }

  /** s without its first occurrence of x (s itself when x does not occur). */
  function RemoveFirst(s: seq<string>, x: string): (r: seq<string>)
    ensures |r| == if x in s then |s| - 1 else |s|
    ensures forall y :: y != x ==> (y in r <==> y in s)
  {
    if s == [] then []
    else if s[0] == x then s[1..]
    else [s[0]] + RemoveFirst(s[1..], x)
  }

  /** Removing the first occurrence is splicing it out at its position. */
  lemma {:induction false} RemoveFirstAt(s: seq<string>, x: string, i: nat)
    requires i <= |s| && forall j :: 0 <= j < i ==> s[j] != x
    requires i < |s| ==> s[i] == x
    ensures RemoveFirst(s, x) == if i < |s| then s[..i] + s[i + 1..] else s
  {
    if s != [] && s[0] != x {
      RemoveFirstAt(s[1..], x, i - 1);
      if i < |s| {
        assert s[..i] == [s[0]] + s[1..][..i - 1];
        assert s[i + 1..] == s[1..][i..];
      }
    }
  }

  /** In a list without repeats, removing the first occurrence removes every occurrence and keeps no repeats. */
  lemma {:induction false} RemoveFirstNoDup(s: seq<string>, x: string)
    requires NoDup(s)
    ensures NoDup(RemoveFirst(s, x)) && x !in RemoveFirst(s, x)
  {
    if s != [] {
      assert NoDup(s[1..]) by {
        assert forall i, j :: 0 <= i < j < |s[1..]| ==> s[1..][i] == s[i + 1] && s[1..][j] == s[j + 1];
      }
      if s[0] == x {
        assert forall j :: 0 < j < |s| ==> s[j] != x;
        assert x !in s[1..];
      } else {
        RemoveFirstNoDup(s[1..], x);
        var r := RemoveFirst(s[1..], x);
        assert s[0] !in s[1..];
        assert s[0] !in r;
        assert forall j :: 0 < j < |[s[0]] + r| ==> ([s[0]] + r)[j] == r[j - 1];
      }
    }
  }

  /** ks with key removed from the list of every prefix in P, and every list left empty dropped. */
  function RemoveUnder(ks: KeyStore, key: string, P: set<string>): KeyStore {
    map p | p in ks && (p !in P || RemoveFirst(ks[p], key) != []) ::
      if p in P then RemoveFirst(ks[p], key) else ks[p]
  }

  /**
   * The index after metaKeyDelete(key), without the single-segment block
   * (see MetaKeyDeleteAsWritten): no list is added; the lists of other keys
   * are as they were; a prefix's list keeps every key but key, and is
   * dropped only when it held nothing else.
   */
  function MetaKeyDeleted(ks: KeyStore, key: string): (r: KeyStore)
    ensures r.Keys <= ks.Keys
    ensures forall p :: p in ks && p !in PrefixSet(key) ==> p in r && r[p] == ks[p]
    ensures forall p, y :: p in r && p in PrefixSet(key) && y != key ==> (y in r[p] <==> y in ks[p])
    ensures forall p, y :: p in ks && p !in r && y in ks[p] ==> y == key
  {
    RemoveUnder(ks, key, PrefixSet(key))
  }

  /**
   * metaKeyDelete as written: the single-segment block, then the loop over
   * the prefixes. The lists of other keys are as they were, but the list of
   * a single-segment key that it did not hold is dropped.
   */
  function MetaKeyDeleteAsWritten(ks: KeyStore, key: string): (r: KeyStore)
    ensures r.Keys <= ks.Keys + {key}
    ensures forall p :: p in ks && p !in PrefixSet(key) ==> p in r && r[p] == ks[p]
    ensures |Split(key, ".")| == 1 && !(key in ks && key in ks[key]) ==> key !in r
  {
    KeyInPrefixSet(key);
    RemoveUnder(Seeded(ks, key), key, PrefixSet(key))
  }

  // ---------------------------------------------------------------------
  // The index invariant
  // ---------------------------------------------------------------------

  /** metaKeyAdd keeps the index: afterwards it indexes the key as well. */
  lemma AddKeepsIndex(keys: set<string>, ks: KeyStore, key: string)
    requires IsIndexOf(keys, ks)
    ensures IsIndexOf(keys + {key}, MetaKeyAdded(ks, key))
  {
    var ks' := MetaKeyAdded(ks, key);
    var P := PrefixSet(key);
    forall p | p in ks'
      ensures |ks'[p]| > 0 && NoDup(ks'[p])
      ensures forall k :: k in ks'[p] ==> k in keys + {key} && p in Prefixes(k)
    {
      AppendedList(keys, ks, p, key);
    }
    forall k, p | k in keys + {key} && p in Prefixes(k)
      ensures p in ks' && k in ks'[p]
    {
      if k == key {
        PrefixInSet(p, key);
      }
    }
  }

  /** The list of one prefix after the append. */
  lemma AppendedList(keys: set<string>, ks: KeyStore, p: string, key: string)
    requires IsIndexOf(keys, ks)
    requires p in ks || p in PrefixSet(key)
    ensures var l := if p in PrefixSet(key) then Appended(ks, p, key) else ks[p];
            && |l| > 0 && NoDup(l)
            && forall k :: k in l ==> k in keys + {key} && p in Prefixes(k)
  {
    if p in PrefixSet(key) && !(p in ks && key in ks[p]) {
      var l := if p in ks then ks[p] else [];
      assert NoDup(l);
      assert forall i :: 0 <= i < |l| ==> l[i] != key;
      assert Appended(ks, p, key) == l + [key];
    }
  }

  /** metaKeyDelete keeps the index: afterwards it indexes every key but the deleted one. */
  lemma DeleteKeepsIndex(keys: set<string>, ks: KeyStore, key: string)
    requires IsIndexOf(keys, ks)
    ensures IsIndexOf(keys - {key}, MetaKeyDeleted(ks, key))
  {
    DeletedNonEmpty(keys, ks, key);
    DeletedSound(keys, ks, key);
    DeletedComplete(keys, ks, key);
    IndexOfParts(keys - {key}, MetaKeyDeleted(ks, key));
  }

  /** The three parts of IsIndexOf, each established on its own. */
  lemma IndexOfParts(keys: set<string>, ks: KeyStore)
    requires forall p :: p in ks ==> |ks[p]| > 0 && NoDup(ks[p])
    requires forall p, k :: p in ks && k in ks[p] ==> k in keys && p in Prefixes(k)
    requires forall k, p :: k in keys && p in Prefixes(k) ==> p in ks && k in ks[p]
    ensures IsIndexOf(keys, ks)
  {
  }

  /** After metaKeyDelete every remaining list is non-empty and free of duplicates. */
  lemma DeletedNonEmpty(keys: set<string>, ks: KeyStore, key: string)
    requires IsIndexOf(keys, ks)
    ensures forall p :: p in MetaKeyDeleted(ks, key) ==>
      |MetaKeyDeleted(ks, key)[p]| > 0 && NoDup(MetaKeyDeleted(ks, key)[p])
  {
    var ks' := MetaKeyDeleted(ks, key);
    forall p | p in ks'
      ensures |ks'[p]| > 0 && NoDup(ks'[p])
    {
      if p in PrefixSet(key) {
        RemoveFirstNoDup(ks[p], key);
      }
    }
  }

  /** After metaKeyDelete a list names only remaining keys that have its key as a prefix. */
  lemma DeletedSound(keys: set<string>, ks: KeyStore, key: string)
    requires IsIndexOf(keys, ks)
    ensures forall p, k :: p in MetaKeyDeleted(ks, key) && k in MetaKeyDeleted(ks, key)[p] ==>
      k in keys - {key} && p in Prefixes(k)
  {
    var ks' := MetaKeyDeleted(ks, key);
    forall p, k | p in ks' && k in ks'[p]
      ensures k in keys - {key} && p in Prefixes(k)
    {
      assert k in ks[p] by {
        if p in PrefixSet(key) {
          assert k != key && k in RemoveFirst(ks[p], key) by {
            assert ks'[p] == RemoveFirst(ks[p], key);
            RemoveFirstNoDup(ks[p], key);
          }
        }
      }
      if k == key {
        PrefixInSet(p, key);
        assert p in PrefixSet(key);
        assert ks'[p] == RemoveFirst(ks[p], key);
        RemoveFirstNoDup(ks[p], key);
      }
    }
  }

  /** After metaKeyDelete every remaining key is still listed under each of its prefixes. */
  lemma DeletedComplete(keys: set<string>, ks: KeyStore, key: string)
    requires IsIndexOf(keys, ks)
    ensures forall k, p :: k in keys - {key} && p in Prefixes(k) ==>
      p in MetaKeyDeleted(ks, key) && k in MetaKeyDeleted(ks, key)[p]
  {
    var ks' := MetaKeyDeleted(ks, key);
    forall k, p | k in keys - {key} && p in Prefixes(k)
      ensures p in ks' && k in ks'[p]
    {
      assert k in ks[p];
    }
  }

  lemma PrefixInSet(p: string, key: string)
    requires p in Prefixes(key)
    ensures p in PrefixSet(key)
  {
    var i :| 0 <= i < |Prefixes(key)| && Prefixes(key)[i] == p;
  }

  /**
   * After metaKeyAdd(key) every prefix of key lists key; a list only grows
   * at its end, does not change when it held key already, and holds no key
   * twice; the lists of other keys stay as they were.
   */
  lemma AddedLists(keys: set<string>, ks: KeyStore, key: string)
    requires IsIndexOf(keys, ks)
    ensures forall p :: p in Prefixes(key) ==> p in MetaKeyAdded(ks, key) && key in MetaKeyAdded(ks, key)[p]
    ensures forall p :: p in ks ==> p in MetaKeyAdded(ks, key) && ks[p] <= MetaKeyAdded(ks, key)[p]
    ensures forall p :: p in ks && key in ks[p] ==> MetaKeyAdded(ks, key)[p] == ks[p]
    ensures forall p :: p in ks && p !in Prefixes(key) ==> MetaKeyAdded(ks, key)[p] == ks[p]
    ensures forall p :: p in MetaKeyAdded(ks, key) ==> NoDup(MetaKeyAdded(ks, key)[p])
  {
    AddKeepsIndex(keys, ks, key);
    forall p | p in Prefixes(key)
      ensures p in MetaKeyAdded(ks, key) && key in MetaKeyAdded(ks, key)[p]
    {
      PrefixInSet(p, key);
    }
  }

  /**
   * After metaKeyDelete(key) no list holds key and none is empty; the
   * lists of keys that are not prefixes of key stay as they were.
   */
  lemma DeletedLists(keys: set<string>, ks: KeyStore, key: string)
    requires IsIndexOf(keys, ks)
    ensures forall p :: p in MetaKeyDeleted(ks, key) ==> key !in MetaKeyDeleted(ks, key)[p] && MetaKeyDeleted(ks, key)[p] != []
    ensures forall p :: p in ks && p !in Prefixes(key) ==> p in MetaKeyDeleted(ks, key) && MetaKeyDeleted(ks, key)[p] == ks[p]
  {
    DeleteKeepsIndex(keys, ks, key);
  }

  // ---------------------------------------------------------------------
  // The loops of metaKeyAdd and metaKeyDelete, one prefix at a time
  // ---------------------------------------------------------------------

  lemma PrefixesBeforeNext(key: string, n: nat)
    requires n < |Prefixes(key)|
    ensures PrefixesBefore(key, n + 1) == PrefixesBefore(key, n) + {Prefixes(key)[n]}
    ensures Prefixes(key)[n] !in PrefixesBefore(key, n)
  {
    forall i | 0 <= i < n
      ensures Prefixes(key)[i] != Prefixes(key)[n]
    {
      PrefixesGrow(key, i, n);
    }
  }

  lemma PrefixesBeforeAll(key: string)
    ensures PrefixesBefore(key, |Prefixes(key)|) == PrefixSet(key)
  {
  }

  /** One step of metaKeyAdd's loop: the append for prefix p. */
  lemma AddUnderStep(ks: KeyStore, key: string, P: set<string>, p: string)
    ensures AddUnder(ks, key, P + {p}) == AddUnder(ks, key, P)[p := Appended(AddUnder(ks, key, P), p, key)]
  {
    if p in P {
      assert AddUnder(ks, key, P + {p}) == AddUnder(ks, key, P);
    }
  }

  /** ks with key removed from the list of p, and that list dropped once empty (metaKeyDelete's loop body). */
  function RemoveAt(ks: KeyStore, p: string, key: string): KeyStore {
    if p !in ks then ks
    else if RemoveFirst(ks[p], key) == [] then ks - {p}
    else ks[p := RemoveFirst(ks[p], key)]
  }

  /** One step of metaKeyDelete's loop, for a prefix not visited before. */
  lemma RemoveUnderStep(ks: KeyStore, key: string, P: set<string>, p: string)
    requires p !in P
    ensures RemoveUnder(ks, key, P + {p}) == RemoveAt(RemoveUnder(ks, key, P), p, key)
  {
  }

  // ---------------------------------------------------------------------
  // The single-segment block, as written
  // ---------------------------------------------------------------------

  /** The prefixes of the two keys the findings below use. */
  lemma PrefixesOfSamples()
    ensures Prefixes("a") == ["a"]
    ensures Prefixes("a.b") == ["a", "a.b"]
  {
    SplitNoSep("a", '.');
    SplitNoSep("b", '.');
    SplitConcat("a", "b", '.');
    assert "a" + "." + "b" == "a.b";
    var segs := Split("a.b", ".");
    assert segs == ["a", "b"];
    assert segs[..1] == ["a"];
    assert segs[..2] == ["a", "b"];
    assert Join(["a"], ".") == "a";
    assert Join(["a", "b"], ".") == "a.b";
    var r := Prefixes("a.b");
    assert r[0] == Join(segs[..1], ".");
    assert r[1] == Join(segs[..2], ".");
    assert Prefixes("a")[0] == Join(["a"], ".");
  }

  /**
   * "a.b" alone is indexed under "a" and "a.b": an index that meets the
   * requires of the two counterexamples below, so neither holds vacuously.
   */
  lemma SampleIndex()
    ensures IsIndexOf({"a.b"}, map["a" := ["a.b"], "a.b" := ["a.b"]])
  {
    PrefixesOfSamples();
  }

  /**
   * With only "a.b" stored, indexing "a" as written replaces the list of
   * "a" by ["a"], so "a.b" drops out of the index of its own prefix. The
   * corrected MetaKeyAdded keeps the index (AddKeepsIndex).
   */
  lemma MetaKeyAddAsWrittenLosesKeys(ks: KeyStore)
    requires IsIndexOf({"a.b"}, ks)
    ensures "a" in MetaKeyAddAsWritten(ks, "a") && MetaKeyAddAsWritten(ks, "a")["a"] == ["a"]
    ensures !IsIndexOf({"a.b", "a"}, MetaKeyAddAsWritten(ks, "a"))
  {
    PrefixesOfSamples();
    assert "a" in Prefixes("a.b");
    assert "a" !in ks["a"];
    assert |Split("a", ".")| == 1;
    var seeded := Seeded(ks, "a");
    assert seeded["a"] == ["a"];
    assert PrefixSet("a") == {"a"} by {
      assert Prefixes("a")[0] == "a";
    }
    assert Appended(seeded, "a", "a") == ["a"];
  }

  /**
   * With only "a.b" stored, deleting "a" as written seeds and then empties
   * the list of "a", so the stored "a.b" loses the list of its prefix "a".
   * The corrected MetaKeyDeleted keeps the index (DeleteKeepsIndex).
   */
  lemma MetaKeyDeleteAsWrittenLosesKeys(ks: KeyStore)
    requires IsIndexOf({"a.b"}, ks)
    ensures "a" !in MetaKeyDeleteAsWritten(ks, "a")
    ensures !IsIndexOf({"a.b"}, MetaKeyDeleteAsWritten(ks, "a"))
  {
    PrefixesOfSamples();
    assert "a" in Prefixes("a.b");
    assert "a" !in ks["a"];
    assert |Split("a", ".")| == 1;
    var seeded := Seeded(ks, "a");
    assert seeded["a"] == ["a"];
    assert PrefixSet("a") == {"a"} by {
      assert Prefixes("a")[0] == "a";
    }
    assert RemoveFirst(["a"], "a") == [];
  }
}
