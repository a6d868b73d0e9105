# flatten, modelled in Dafny

A Dafny model of the Go package `flatten`. The package turns a tree of Go
maps and slices into a flat store. In the store, dotted keys such as
`"test01.a.avt"` map to scalar values. The package can also turn the store
back into a tree. Beside the pairs, the store keeps a prefix index: every
`"."`-joined prefix of a stored key has a list of the stored keys below it.
`Get` uses the index to answer for a whole subtree. A `Merge` folds several
stores into one.

The model has one module per concern of the source:

| module | file | models |
|---|---|---|
| `Values` | values.dfy | Go's `interface{}` trees: `Nil`, scalar `Leaf`, `Arr` (slice), `Obj` (`map[string]interface{}`), and `IntKeyed` (a map whose key type is not string) |
| `GoStrings` | gostrings.dfy | the parts of `strings.Split`, `strings.Join`, `strconv.Itoa` and `strconv.Atoi` that the package relies on |
| `Utils` | utils.dfy | `flatten` and its `assign` closure, `makeFlattenKey`, `makeKey` |
| `Nesting` | nested.dfy | `makeNested`, `nested`, and the flatten/nested round trip |
| `KeyIndex` | keyindex.dfy | the prefix index `keyStore`, and the new index that `metaKeyAdd` and `metaKeyDelete` compute |
| `Store` | flatten.dfy | the class `Flatten` and its methods, and `NewFlattenFromMap` |
| `Merging` | merge.dfy | `mergeValue`, and the class `Merge` with `NewMerge` and `Compile` |
| `Scenarios` | examples.dfy | the calls of the unit tests, with what those tests assert |

How the model is built:

- **flatten** is a method. It takes the target map in and returns it, instead of writing into the caller's map. Its contract relates the result to a reference function, `Leaves`, which gives the (key, scalar) pairs of a tree. Go visits map entries in no fixed order, so the loops pick entries with `:|`. The contract is therefore a relation, `Absorbs`, that holds for every order. `AbsorbsUnique` shows that the order does not matter when no two paths share a key.
- **makeNested** is a function on values. **nested** is a method whose loop takes the keys in any order.
- **The store** is a class with the four fields of the Go struct. Its invariant `Valid()` says that `keyStore` indexes exactly the keys of `container`. Every method that changes the store keeps this invariant.

## Model

| member | source | states |
|---|---|---|
| GoStrings.IndexFirst | utils.go:90 | the position strings.Split cuts at is the first occurrence of the separator, and -1 means there is none |
| GoStrings.Split | utils.go:90 | splitting on a non-empty separator gives at least one segment; on the empty separator, one segment per character |
| GoStrings.SplitChars | utils.go:90 | on the empty separator, segment i is the i-th character alone |
| GoStrings.JoinSplit | flatten.go:155-162 | joining the segments of a split with the same separator gives back the original string |
| GoStrings.SplitJoin | utils.go:90 | splitting a join of segments free of the separator character gives back the segments |
| GoStrings.SplitConcat | utils.go:139-145 | splitting `a + c + b` on `c` gives the segments of `a` followed by those of `b` |
| GoStrings.Itoa | utils.go:67 | the decimal form of a position is a non-empty string of digits in strconv.Itoa's canonical form: "0" for zero, and no leading zero otherwise |
| GoStrings.AtoiItoa | utils.go:102-105 | parsing the decimal form of a position up to MaxInt64 gives that position back |
| GoStrings.ItoaInjective | utils.go:67 | different positions have different decimal forms, so no two slice elements share a key |
| GoStrings.Atoi | utils.go:102 | a parsed number lies in the int64 range |
| Utils.MakeFlattenKey | utils.go:139-145 | with an empty parent key the result is the sub-key itself; otherwise it is the parent key, then the delimiter, then the sub-key |
| Utils.MakeKey | utils.go:147-153 | with a namespace, the key comes after the namespace and a "."; without one, the key is returned unchanged |
| Utils.FlattenKeySegments | utils.go:139-145 | with an empty parent key the child key is the sub-key alone; otherwise its segments are the parent's segments followed by the sub-key's |
| Utils.MakeKeyInjective | utils.go:147-153 | putting a namespace in front never makes two different keys equal |
| Utils.FlattenInto | utils.go:10-84 | reports NotValidInput for a root that is neither a map nor a slice, and KeyNotString when a non-empty map below has non-string keys; on failure the map is not changed at the root; on success the map gains exactly the (key, scalar) pairs of the tree, and keys outside them keep their values |
| Utils.FlattenFields | utils.go:42-62 | the map case: every field is flattened under `makeFlattenKey(key, field)`, in any order |
| Utils.FlattenItems | utils.go:63-78 | the slice case: element i is flattened under `makeFlattenKey(key, Itoa(i))`, for i from 0 to len-1 |
| Utils.Assign | utils.go:13-33 | a map or slice value is flattened under the new key; any other value is stored at that key |
| Utils.LeavesAreScalars | utils.go:13-33 | flatten writes only scalars; a map or slice is never stored itself |
| Utils.AbsorbsUnique | utils.go:43-62 | when no key is written twice, every visiting order of the map gives the same result |
| Utils.ReflattenFlat | utils.go:42-62 | flattening a map of scalars at the root writes each of its pairs under its own key |
| Utils.ScalarsFlatten | utils.go:10-40 | a map of scalars holds no nil and flattens without error |
| Utils.FlattenIdempotent | utils.go:10-84 | the output of flatten, flattened again, succeeds and writes exactly the same pairs |
| Utils.AbsorbsTrans | utils.go:57-61 | writing two groups of pairs one after the other writes their union |
| Nesting.MakeNested | utils.go:97-137 | nil becomes a slice of length index+1 for a numeric segment, with nil at every other position, and a map otherwise; a short slice grows to index+1, keeps its elements and pads with nil; a map keeps its other keys; with one segment left the value sits at that position; a scalar is returned unchanged |
| Nesting.SafeEverywhere | utils.go:102-117 | segments that are positions from 0 to MaxInt64-1, or not numbers at all, never make makeNested panic, whatever tree they meet |
| Nesting.Nested | utils.go:86-95 | an empty flat map gives nil and any other gives a map or slice; for the flat form of a round-trippable tree, every visiting order gives back that tree |
| Nesting.NestedStep | utils.go:89-92 | one iteration stores the leaf that its key names into the tree built so far |
| Nesting.NestedDone | utils.go:89-94 | once every key of the flat form is stored, the tree is complete |
| Nesting.LeavesEntries | utils.go:41-81 | flatten's pairs are the leaves of the tree, each keyed by its path joined through makeFlattenKey |
| Nesting.LeavesEntriesObj | utils.go:42-62 | the map case: once every field's pairs are its entries under the field's key, the map's pairs are its entries under the map's key |
| Nesting.LeavesEntriesArr | utils.go:63-78 | the slice case: once every element's pairs are its entries under its position's key, the slice's pairs are its entries under the slice's key |
| Nesting.LeafKey | utils.go:56-67 | the flat key of a leaf of a round-trippable tree is its path joined with the delimiter, and splitting that key gives back the path |
| Nesting.FlatEntry | utils.go:56-67 | every key in the flat form of a round-trippable tree names exactly one leaf, holds its value, and has safe segments |
| Nesting.WellFormedFlattens | utils.go:41-81 | flatten neither panics nor fails on a well-formed tree |
| Nesting.LeavesFunctional | utils.go:56-67 | in the flat form of a round-trippable tree no key is written twice |
| Nesting.FlattenThenNest | utils.go:10-95 | flattening a round-trippable tree and nesting the result gives back the tree |
| Nesting.NestThenFlatten | utils.go:10-95 | nesting the flat form of a round-trippable tree and flattening again gives back the flat form |
| KeyIndex.Prefixes | flatten.go:161-162 | the visited prefixes are as many as the key has segments, and the last is the key itself |
| KeyIndex.PrefixShape | flatten.go:161-162 | p is a visited prefix of k exactly when p is k or k starts with p + "." |
| KeyIndex.PrefixesGrow | flatten.go:161-162 | each visited prefix extends the earlier ones past a ".", so none is visited twice |
| KeyIndex.IndexedPrefix | flatten.go:101-103 | under the index, a key has a list exactly when some stored key has it as a prefix |
| KeyIndex.RemoveFirstAt | flatten.go:193-201 | the search loop stops at the first occurrence, and cutting it out gives the list without that first occurrence |
| KeyIndex.RemoveFirst | flatten.go:193-201 | the list after the splice: one element shorter when the key occurred, with every other key present exactly when it was before |
| KeyIndex.RemoveFirstNoDup | flatten.go:193-201 | in a duplicate-free list, removing the first occurrence removes the key entirely and keeps the list free of duplicates |
| KeyIndex.MetaKeyAdded | flatten.go:161-167 | the prefix loop of metaKeyAdd: every prefix of the key gets a list holding the key, no other key gets a list, and the lists of other keys are unchanged |
| KeyIndex.MetaKeyAddAsWritten | flatten.go:154-168 | metaKeyAdd with its single-segment block: every prefix lists the key, but a single-segment key that its own list did not hold ends up alone in that list |
| KeyIndex.MetaKeyDeleted | flatten.go:189-207 | the prefix loop of metaKeyDelete: no list is added; the lists of other keys are unchanged; a prefix's list keeps every key but the deleted one, and is dropped only when it held nothing else |
| KeyIndex.MetaKeyDeleteAsWritten | flatten.go:182-208 | metaKeyDelete with its single-segment block: the lists of other keys are unchanged, but the list of a single-segment key that it did not hold is dropped |
| KeyIndex.AddKeepsIndex | flatten.go:154-168 | after metaKeyAdd the index covers the old keys and the new one |
| KeyIndex.AddedLists | flatten.go:161-167 | after metaKeyAdd(k) every prefix of k lists k; a list only grows at its end and does not change when it already held k; no list holds a key twice; the lists of other keys stay as they were |
| KeyIndex.DeletedNonEmpty | flatten.go:203-205 | after metaKeyDelete no list is empty and no list holds a key twice |
| KeyIndex.DeletedSound | flatten.go:189-207 | after metaKeyDelete a list names only keys still stored, each below the list's key |
| KeyIndex.DeletedComplete | flatten.go:189-207 | after metaKeyDelete every key still stored is listed under each of its prefixes |
| KeyIndex.DeleteKeepsIndex | flatten.go:182-208 | after metaKeyDelete the index covers the old keys without the deleted one |
| KeyIndex.DeletedLists | flatten.go:189-207 | after metaKeyDelete(k) no list holds k, lists left empty are gone, and the lists of other keys stay as they were |
| KeyIndex.SampleIndex | flatten.go:154-168 | with "a.b" alone stored, the index lists it under "a" and under "a.b" |
| KeyIndex.MetaKeyAddAsWrittenLosesKeys | flatten.go:157-159 | as written, adding "a" to an index of "a.b" replaces the list of "a" by ["a"], which breaks the index |
| KeyIndex.MetaKeyDeleteAsWrittenLosesKeys | flatten.go:185-187 | as written, deleting the absent key "a" from an index of "a.b" drops the list of "a", which breaks the index |
| Store.ExportKeyInjective | flatten.go:121-126 | the keys All reports are distinct for distinct stored keys |
| Store.ExportedLookup | flatten.go:118-130 | All reports every stored pair once, under its exported key and with its value, and nothing else |
| Store.ExportedPlain | flatten.go:122-124 | without a namespace, or without asking for it, All returns the stored pairs as they are |
| Store.SubTreeLookup | flatten.go:109-115 | the subtree below a key holds s exactly when the store holds key + "." + s, with the same value |
| Store.SubTreeEmpty | flatten.go:101-103 | the subtree is empty exactly when no stored key lies below key + "." |
| Store.Listed | flatten.go:101-103 | under the index, a key has no list exactly when it is not stored and nothing is stored below it |
| Store.ListedBelow | flatten.go:109-112 | the list of a key that is not stored names exactly the stored keys below it |
| Store.SpliceOut | flatten.go:193-201 | the inner loop of metaKeyDelete gives the list with the first occurrence of the key spliced out, and the list itself when the key is absent |
| Store.NewSubStore | flatten.go:109-115 | the loop of Get builds a new, valid store holding the listed pairs with the key + "." prefix cut off |
| Store.NewFlattenFromMap | flatten.go:30-44 | fails with flatten's error and no store; otherwise gives a new, valid store with no namespace and delimiter "." that holds exactly the flat pairs of the data |
| Store.Flatten.IndexContainer | flatten.go:39-41 | indexing every stored key, in any order, into an empty index gives a valid store and changes no other field |
| Store.Flatten.constructor | flatten.go:21-28 | a new store is empty, has no namespace and has delimiter "." |
| Store.Flatten.GetDelimiter | flatten.go:70-72 | returns the delimiter |
| Store.Flatten.SetDelimiter | flatten.go:74-78 | sets the delimiter, changes nothing else, and returns the same store |
| Store.Flatten.GetNamespace | flatten.go:80-82 | returns the namespace |
| Store.Flatten.SetNamespace | flatten.go:84-88 | sets the namespace, changes nothing else, and returns the same store |
| Store.Flatten.MetaKeyExist | flatten.go:170-180 | true exactly when the list of subKey exists and holds key |
| Store.Flatten.MetaKeyAdd | flatten.go:161-167 | the loop appends key, where missing, to the list of each of its prefixes, and changes no other field |
| Store.Flatten.MetaKeyDelete | flatten.go:189-207 | the loop removes key from the list of each of its prefixes, drops the lists left empty, and changes no other field |
| Store.Flatten.Add | flatten.go:90-98 | stores the value unflattened under the key, indexes the key, keeps the index valid, and returns the same store |
| Store.Flatten.Get | flatten.go:100-116 | nil exactly when nothing is stored at or below the key; the stored value exactly when the key is stored; otherwise a new, valid store holding the subtree below the key, with the prefix cut off; the store itself is not changed |
| Store.Flatten.All | flatten.go:118-130 | the stored pairs, each keyed by namespace + "." + key when a namespace is set and asked for, and by the key otherwise |
| Store.Flatten.Delete | flatten.go:132-138 | removes the key, with the namespace in front, from the pairs and from the index, and keeps the index valid |
| Store.Flatten.ToNested | flatten.go:150-152 | nil exactly for an empty store; when All's pairs are the flat form of a round-trippable tree, that tree |
| Merging.MergeAllKeys | merge.go:21-31 | the merge of several maps holds exactly the keys of the maps |
| Merging.MergeAllLastWins | merge.go:29 | a key's merged value is its value in the last map that holds it |
| Merging.MergeAllNotCommutative | merge.go:29 | for the two one-key maps {"k": 1} and {"k": 2}, the merged value of "k" is 2 in one order and 1 in the other, so the order of the stores matters |
| Merging.Exports | merge.go:37 | one exported map per store: All(true) of that store |
| Merging.SkipSecond | merge.go:26-27 | the visited list is one shorter than the list once the list has two elements, and the whole list otherwise |
| Merging.SkipSecondItems | merge.go:26-27 | the visited list keeps the first element and then continues from the third |
| Merging.MergeValue | merge.go:36-44 | left afterwards holds its old pairs overwritten by right's exported pairs, keeps its other keys, stays valid, and is what is returned |
| Merging.CompileStep | merge.go:24-30 | one iteration of Compile's loop: the first branch is unreachable, position 1 leaves the result unchanged, and any other store is merged in, so the result stays the fold of the stores visited so far |
| Merging.CompileLoop | merge.go:20-33 | for a list other than a single store, a new, valid store holding the fold of every store's exported pairs except the store at index 1 |
| Merging.Merge.constructor | merge.go:9-13 | the merge holds the given stores, in order |
| Merging.Merge.Compile | merge.go:15-34 | one store comes back as it is; zero stores give an empty store; otherwise a new, valid store holding the fold of every store's exported pairs except the store at index 1 |
| Merging.Merge.CompileAll | merge.go:15-34 | the intended Compile: a new, valid store holding the fold of every store's exported pairs, in order |
| Merging.CompileDropsSecond | merge.go:24-28 | with two stores, a key only the second holds is lost by Compile as written and kept by the intended fold |
| Scenarios.SingleKeyIndex | flatten.go:154-168 | indexing one key into an empty index lists it, alone, under itself |
| Scenarios.OnlyListed | flatten.go:105-107 | a stored key that no other stored key extends is listed alone under itself |
| Scenarios.GetLeaf | flatten.go:105-107 | for such a key, Get returns its value |
| Scenarios.AddGet | flatten.go:90-107 | in any store, the value added under a key that no other stored key extends is what Get then returns |
| Scenarios.AddThenGet | flatten_test.go:12-18 | Add("test.abs.1", "yep") and then Get gives "yep" |
| Scenarios.AddDeleteGet | flatten_test.go:20-30 | after Add, Get gives "yep"; after Delete, Get gives nil |
| Scenarios.FromMapToNested | flatten_test.go:133-167 | a store made from a round-trippable tree gives the tree back from ToNested, with or without the namespace |
| Scenarios.SampleLeaves | flatten_test.go:33-42 | the sample tree flattens to "test" → "a" and "test01.a.avt" → "hi" |
| Scenarios.SampleIsRoundTrippable | flatten_test.go:33-40 | the sample tree is round-trippable |
| Scenarios.SampleBranchWellFormed | flatten_test.go:35-39 | the sample's branch under "test01" is well formed |
| Scenarios.SampleContainer | flatten_test.go:42 | the store made from the sample holds exactly its two pairs |
| Scenarios.SampleSubTree | flatten_test.go:48 | below "test01.a" the sample store holds "avt" → "hi" alone |
| Scenarios.GetInner | flatten_test.go:48 | Get("test01.a") returns a store holding "avt" → "hi" |
| Scenarios.SampleGets | flatten_test.go:48-50 | the three Get calls on the sample store give a store, "a" and "hi" |
| Scenarios.FlatSampleLeaves | flatten_test.go:187-190 | the flat sample flattens to "test" → "a" and "test01.a.avt" → "hi" |
| Scenarios.SampleReflattens | flatten_test.go:186-222 | the flat sample and the nested sample flatten to the same pairs |
| Scenarios.FromMapFlatGet | flatten_test.go:186-201 | made from the flat sample, the store answers the three Get calls with a store, "a" and "hi" |
| Scenarios.FromMapGet | flatten_test.go:203-222 | made from the sample tree, the store answers the three Get calls with a store, "a" and "hi" |

## Left out

- `NewFlattenFromJson` and `ToJson` are not modelled. They only wrap `encoding/json`, and the model has no JSON.
- The debug printing with `fmt.Println` in `Add` and `mergeValue` is not modelled, because it does not affect any result.
- `reflect` kind dispatch is replaced by matching on the `Value` datatype. Scalars are strings, integers and booleans, treated as opaque values, and there is no floating point. A Go `[]byte` counts as a slice in flatten, and the model would write it as an `Arr` of integers.
- Utils.FlattenInto: the caller's map is not updated in place. The map goes in and the new map comes out, and `NewFlattenFromMap` stores the result in the new store's container.
- Utils.FlattenInto: `NilFree` is required. A nil inside a map or slice makes the source call `Interface()` on an invalid reflect value, which panics. A nil at the root is modelled: it gives NotValidInput.
- Nesting.MakeNested: the in-place updates of maps and slices, and the aliasing between the old and the grown slice, are not modelled. The function returns the changed tree instead.
- Nesting.MakeNested: negative positions, and the position MaxInt64 (whose index+1 wraps around), are excluded by `NestSafe`, because both make the source panic. Mixed numeric and text segments at one level are modelled as the code handles them: a text segment on a slice writes position 0, and a numeric segment on a map is an ordinary map key.
- Nesting.MakeNested: `make([]interface{}, index+1)` also panics ("len out of range"), or runs out of memory, for positions far below MaxInt64, about 2^44 and above on 64-bit Go. The model has unbounded memory and returns a slice of that length for every position up to MaxInt64-1.
- Nesting.FlattenThenNest: `Arr` stands for any slice or array, and `Obj` for any map with string keys. makeNested only ever builds `[]interface{}` and `map[string]interface{}`. A tree holding, say, a `[]int` or a `map[string]string` therefore comes back with different Go types, and is not `reflect.DeepEqual` to the input. "Gives back the tree" holds in Go only for trees built from `[]interface{}` and `map[string]interface{}`, as in the tests. The same applies to Nesting.NestThenFlatten and Scenarios.FromMapToNested.
- Store.Flatten.MetaKeyAdd: the single-segment block at flatten.go:157-159 is left out of the method, which models the loop alone. KeyIndex.MetaKeyAddAsWritten models the block, and the first Finding shows what it breaks.
- Store.Flatten.MetaKeyDelete: the single-segment block at flatten.go:185-187 is left out of the method, which models the loop alone. KeyIndex.MetaKeyDeleteAsWritten models the block, and the second Finding shows what it breaks.
- Nesting.Nested: panic freedom in the source depends on the order of the keys. The model requires something stronger and independent of order: every segment of every key is safe (`SafeSegments`).
- Store.Flatten.ToNested: same requirement as `Nested`, for the keys All reports.
- Store.NewFlattenFromMap and Store.Flatten.ToNested: the source calls `flatten` and `nested` without a delimiter, although `utils.go` declares one. These are two revisions that do not match, and `merge_test.go` passes a second argument to `NewFlattenFromMap` as well. The model passes the store's delimiter field. That field is "." for a new store, the same "." that the index splits on.
- Store.Flatten.Get: callers may not ask for a key that is stored and also has stored keys below it. The source then cuts `len(key)+1` characters off the key itself and panics.
- Store.Flatten.Add: the method indexes the key with the corrected metaKeyAdd, the loop of flatten.go:161-167 without the single-segment block at flatten.go:157-159 (see Findings), and so does not reproduce the lists that block overwrites.
- Store.Flatten.Delete: the method removes the key from the index with the corrected metaKeyDelete, the loop of flatten.go:189-207 without the single-segment block at flatten.go:185-187 (see Findings), and so does not reproduce the lists that block drops.
- Store.Flatten.Get: the store's methods use the corrected index (see Findings). The written index gives different outcomes for one sequence. After `Add("a.b")` and `Add("a")`, the written `metaKeyAdd` has replaced the list of "a" by ["a"], so `Get("a")` returns the value. With the corrected index, that call is the panicking case above, and so it is excluded.
- Merging.MergeValue and Merging.Merge.Compile: the order of the keys inside the index lists of the merged store is not stated. Only the pairs and the validity of the index are.
- Merging.MergeValue: the source receives both stores by value, but their maps are shared, so the left store is changed. The model states that change (`modifies left`). The copy of the struct itself is not modelled.
- The benchmarks and the `test_1.json` fixture are not modelled: they do file I/O and timing.
- Scenarios.FromMapToNested: the mixed map/slice tree of the ToNested test is not written out. The scenario is stated for every round-trippable tree, and that test's tree is one of them.
- The namespace test of `ToJson` (flatten_test.go:95-131) is not stated as a scenario. JSON is not modelled, and All's namespace prefixing is stated by Store.Flatten.All.

## Findings

| source | as written | input that shows it | evidently intended | confidence | as-written member | corrected member |
|---|---|---|---|---|---|---|
| flatten.go:157-159 | for a key without ".", which its own list does not hold yet, `metaKeyAdd` first sets that list to `[key]`, discarding the stored keys already listed under it | `Add("a.b", x)` then `Add("a", y)`: the list of "a" becomes ["a"], and "a.b" is no longer found under "a" | append the key to each prefix's list without discarding it (the loop alone does that) | not executed | KeyIndex.MetaKeyAddAsWrittenLosesKeys | KeyIndex.AddKeepsIndex |
| flatten.go:185-187 | `metaKeyDelete` begins with the same block, so deleting a single-segment key that is not stored first replaces its list by `[key]`. The loop then removes the key and drops the now-empty list | store "a.b", then `Delete("a")`: the list of "a" is dropped, so `Get("a")` returns nil although "a.b" is stored | deleting a key that is not stored leaves the index as it was | not executed | KeyIndex.MetaKeyDeleteAsWrittenLosesKeys | KeyIndex.DeleteKeepsIndex |
| merge.go:24-28 | the first branch needs fewer than two stores, which never reach the loop; the second skips the store at index 1 | two stores where only the second holds key k: the compiled store does not hold k | every store is merged in order, the last store winning on a shared key | not executed | Merging.CompileDropsSecond | Merging.Merge.CompileAll |
