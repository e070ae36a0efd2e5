# obstackle in Dafny

A model of obstackle, a small TypeScript library of structural operations
on JSON-like objects, with proofs about its behaviour. The library's
operations are:

- `get`, `has` and `set` along dotted key paths (`"a.b.c"`);
- the merge engine `deepMerge` with its array copy `deepCopyArray`;
- `deepClone`;
- the older array-less `merge` and its own `deepCopyArray`;
- the first-level filters `pick` and `omit`.

Every value is one `Value` (module `Values`):

- strings, opaque numbers, booleans, `null`, `undefined` and opaque function references;
- arrays (`Seq`), plus `Hole` for an empty slot of a sparse array;
- objects (`Obj`, a `map` from keys to values).

Everything is compared by value, so key order plays no part.

Two JavaScript rules are written out explicitly:

- **`for...in` skips empty slots.** `Hole` matches no branch of any copy loop.
- **Array length.** Writing `clone[i] = x` into a fresh `[]` makes its length one past the last index written. An element dropped in the middle of an array therefore leaves an empty slot, and later elements keep their indices. Elements dropped at the end disappear (`TrimHoles`).

Modules and what they model:

| module | source | form |
|---|---|---|
| `Values` | `src/utils.ts` (`isPrimitiveOrFunction`) | value type, classifier, array-length rule |
| `Paths` | `src/utils.ts` (`getKeyFromPath`) | pure functions and lemmas |
| `Get` | `src/get.ts` | pure functions and lemmas |
| `Has` | `src/has.ts` | pure predicate and lemmas |
| `PathSet` | `src/set.ts` | class `JsObject` holding the root entries; methods specified by `SetPath` |
| `Deep` | `src/deep.ts` | spec functions; loop methods proved equal to them |
| `Clone` | `src/clone.ts` | spec functions; loop method proved equal to them |
| `LegacyMerge` | `src/deep-merge.ts` | spec functions; loop methods proved equal to them |
| `LegacyCopyArray` | `src/deep-copy-array.ts` | spec function; loop method proved equal to it |
| `PickKeys`, `OmitKeys` | `src/pick.ts`, `src/omit.ts` | folds over the key enumeration |

Reading of the code:

- **`isSimpleType`.**
  - `src/deep.ts`, `src/clone.ts` and `src/deep-copy-array.ts` import `isSimpleType` from `src/utils.ts`. That file exports only `isPrimitiveOrFunction`.
  - The model reads the import as `isPrimitiveOrFunction`, which has the same meaning as the local `isSimpleType` of `src/deep-merge.ts`.
  - So the flag `nullish = true` keeps `null`/`undefined`, and `false` drops them.
- **deepMerge's recursive copy.** The calls `deepMerge({}, v, ...)` that copy a map held by only one side are modelled as `Deep.CopyMap` and its method `Deep.CopyObject`. `Deep.MergeWithEmpty` proves this is exactly `deepMerge` with an empty side.
- **The `Obj`/`Seq` branches of deepClone.** Both recursive branches call `deepClone` the same way, and so does the model.
- **set with a copy.** `set(obj, key, value, true)` starts from `deepMerge(obj, {})` with the defaults (`"source"`, `nullish = false`). That copy drops every `null` or `undefined` entry, at every depth, before the assignment (`PathSet.Set`, `PathSet.SetCopyAgrees`).
- **What the other side holds.** Where the priority side holds an object, the recursion receives `priorityTwo[key] ?? {}`, and its loops enumerate that value with `for...in` and index it (`Deep.Counterpart`):
  - an object gives its own entries;
  - a string gives its indices, spelled in decimal, each holding its one-character string (`Deep.StringEntries`; characters are code points, see below);
  - an array gives the indices of its elements, skipping empty slots (`Deep.ArrayEntries`);
  - anything else gives nothing.
  So both merges accept every pair of objects. The same reading gives deepClone of a string the object of its indices.
- **deepMerge's arrays.** The array copy of `deepMerge` always runs with `nullish = false`, whatever the flag passed to `deepMerge`. So arrays inside a merge never keep `null` or `undefined` elements (`Deep.CopyNullishFree`).

## Model

| member | source | states |
|---|---|---|
| `Values.IsPrimitiveOrFunction` | src/utils.ts:11-13 | strings, numbers, booleans and functions pass whatever the flag; null and undefined pass exactly when the flag is set; arrays, objects and empty slots never pass |
| `Paths.IndexOfDot` | src/utils.ts:24 | -1 exactly when there is no dot; otherwise the index of a dot with no dot before it |
| `Paths.GetKeyFromPath` | src/utils.ts:22-29 | empty path gives ("", ""); a dot-free path gives (path, ""); otherwise the head has no dot and head + "." + rest is the path; the rest is shorter than a non-empty path |
| `Paths.SplitEdgeCases` | src/utils.ts:23-28 | a leading dot gives an empty head; a trailing dot after a dot-free head gives an empty rest |
| `Paths.SplitSegment` | src/utils.ts:24-28 | a dot-free head followed by a dot and any rest splits back into exactly that head and rest |
| `Paths.SplitJoin` | src/utils.ts:22-29 | splitting the path built from valid segments yields the first segment and the path of the remaining ones |
| `Get.InternalGet` | src/get.ts:8-23 | a value that is not an object, or an empty first segment, gives undefined |
| `Get.InternalGetFollowsSegments` | src/get.ts:12-22 | internalGet on a path of valid segments is segment-by-segment resolution: the value at the end when every segment exists and each value on the way is an object, undefined otherwise |
| `Get.Get` | src/get.ts:49-55 | the result is the default or what internalGet finds, and it is never null or undefined unless the default is |
| `Get.GetResult` | src/get.ts:49-55 | get returns the resolved value unless the path misses or the value is null or undefined, in which case it returns the default |
| `Get.TrailingDotIgnored` | src/get.ts:12-20 | one trailing dot added to a path that does not already end in a dot does not change what internalGet finds |
| `Get.EmptySegmentMisses` | src/get.ts:13-15 | the empty path, a leading dot and a doubled dot after a key all give undefined |
| `Has.InternalHas` | src/has.ts:3-11 | an empty object has nothing; below a non-empty prefix every match is longer than the prefix |
| `Has.Has` | src/has.ts:41-43 | every top-level key is present; an empty object has no key |
| `Has.MatchesExtendPrefix` | src/has.ts:5-9 | below a non-empty prefix, every key path that matches starts with that prefix and a dot |
| `Has.ShiftPrefix` | src/has.ts:3-11 | for a non-empty prefix `a` and an object whose keys at every depth are non-empty and dot-free: searching for `a.s` under prefix `a` is searching for `s` under the empty prefix (prefixes only grow at their end) |
| `Has.HasStep` | src/has.ts:4-9 | for an object whose keys at every depth are non-empty and dot-free, and a non-empty dot-free `s` and non-empty `rest`: `s.rest` is present exactly when `s` is a top-level key holding an object in which `rest` is present; arrays and atoms are never entered |
| `Has.HasIffResolves` | src/has.ts:3-11 | for objects whose keys are non-empty and dot-free, has holds on a path of valid segments exactly when get's segment-by-segment resolution reaches an existing key |
| `Has.HasThenGetFinds` | src/has.ts:41-43 | for an object whose keys at every depth are non-empty and dot-free, and a path of such segments: when has holds, internalGet returns the stored value at that path (null and undefined included) |
| `Has.TopLevelKey` | src/has.ts:4-8 | when the empty key, if present, does not hold an object: a dot-free key is present exactly when it is a top-level key, whatever its value (null and undefined included) |
| `Has.EmptyHasNothing` | src/has.ts:4 | an empty object has no key at any path |
| `Has.EmptyRootKeyCollapses` | src/has.ts:5 | the empty key adds no dot: `{"": {b: 1}}` has `b` although get cannot reach it |
| `Has.TrailingDotDiffers` | src/has.ts:6 | `{a: 1}` does not have `a.` while get finds 1 there |
| `PathSet.SetPath` | src/set.ts:9-22 | the result is an object exactly when the input is, with the same top-level keys (no key is created) |
| `PathSet.InternalSet` | src/set.ts:9-22 | the root entries become those of SetPath applied to the old entries |
| `PathSet.Set` | src/set.ts:57-66 | without newCopy the same object is updated and returned; with it a fresh object holding the updated copy `deepMerge(obj, {})` is returned and the argument is left as it was |
| `PathSet.SetThenFinds` | src/set.ts:14-18 | when the path resolves, the value there afterwards is the new value (an atom may replace an object), and get finds it |
| `PathSet.SetMissChangesNothing` | src/set.ts:11-14 | no path is created: a missing key at any level or a non-object on the way leaves the tree unchanged |
| `PathSet.SetLeavesOthers` | src/set.ts:14-20 | every path that parts ways with the assigned one resolves as before, at every depth |
| `PathSet.SetEmptyHeadChangesNothing` | src/set.ts:11-13 | an empty head (empty path, leading dot) and a non-object root leave the tree unchanged |
| `PathSet.SetCopyAgrees` | src/set.ts:63 | for a tree without null, undefined or trailing empty slots, the copied-then-updated tree equals the updated tree |
| `Deep.CopyArray` | src/deep.ts:58-70 | every kept element stays at its own index, holding the copy of the element there; dropped elements leave empty slots and never shift later ones; the copy never ends in an empty slot |
| `Deep.IndexKeyInjective` | src/deep.ts:38 | different indices are enumerated by for...in under different decimal keys |
| `Deep.StringEntriesAt` | src/deep.ts:30-32 | each index of a string counterpart is enumerated and yields the one-character string there |
| `Deep.StringEntriesKey` | src/deep.ts:38 | nothing but a string's indices is enumerated |
| `Deep.ArrayEntriesAt` | src/deep.ts:30-32 | each index of an array counterpart that is not an empty slot is enumerated and yields the element there |
| `Deep.ArrayEntriesKey` | src/deep.ts:38 | nothing but the indices of an array's elements is enumerated; empty slots are not |
| `Deep.StringCounterpartMerged` | src/deep.ts:30 | `deepMerge({a: {x: 1}}, {a: "ab"})` is `{a: {x: 1, 0: "a", 1: "b"}}` |
| `Deep.MergeByPriority` | src/deep.ts:25-48 | the two loops with the priority side first: no key outside the two sides' keys |
| `Deep.Merge` | src/deep.ts:16-50 | deepMerge: a key is present exactly when one side holds a value the copy loops keep; every simple value of the priority side (`source` for "source", `target` otherwise) comes out as it is |
| `Deep.SimpleWins` | src/deep.ts:26-27 | every simple value on the priority side comes out as it is, whatever the other side holds |
| `Deep.ObjectPriorityIsTarget` | src/deep.ts:23-24 | priority "object" gives the same merge as "target" |
| `Deep.MergeKey` | src/deep.ts:25-48 | per key, whatever either side holds: present exactly when either side retains it; a simple value on the priority side wins; an object there is merged with the entries of the other side's value under that key (an object's entries, a string's or an array's indices, nothing otherwise); an array there is copied whole; otherwise the other side's value is copied |
| `Deep.MergeKeys` | src/deep.ts:25-48 | the result's keys lie within the union of both sides' keys, and equal their union with nullish on |
| `Deep.MergeWithEmpty` | src/deep.ts:43 | deepMerge with an empty side, on either side and for any priority, is the copy CopyMap |
| `Deep.CopyNullishFree` | src/deep.ts:58-70 | a copy with nullish off, and every array copy, holds no null or undefined at any depth |
| `Deep.MergeNullishFree` | src/deep.ts:25-48 | with nullish off no null or undefined appears anywhere in the merge |
| `Deep.CopyPruned` | src/deep.ts:58-70 | a copy only removes entries and empties slots, at every depth; nothing is added or altered |
| `Deep.CopyIdentity` | src/deep.ts:58-70 | a tree without null, undefined or trailing empty slots is copied to an equal tree |
| `Deep.ArrayReplacesWhole` | src/deep.ts:34-35 | an array on the priority side that holds no null, undefined or trailing empty slot at any depth comes out equal to itself, whatever the other side holds under that key (an object included) |
| `Deep.DeepMerge` | src/deep.ts:16-50 | the two loops compute Merge |
| `Deep.CopyObject` | src/deep.ts:43 | the copy loop computes CopyMap |
| `Deep.DeepCopyArray` | src/deep.ts:58-70 | the index loop computes CopyArray |
| `Clone.Clone` | src/clone.ts:4-16 | an array gives an array no longer than it, anything else an object; an object's clone has no key the object lacks |
| `Clone.CloneArray` | src/clone.ts:5-14 | kept elements stay at their index holding the clone of the element there, dropped ones leave empty slots, no trailing empty slot |
| `Clone.CloneKeys` | src/clone.ts:7-13 | only input keys appear; non-nullish atoms (false, 0 and "" too) are kept as they are; null and undefined exactly with nullish; containers always |
| `Clone.CloneCanonical` | src/clone.ts:5-15 | a clone never holds an empty slot as an object value nor ends an array with one |
| `Clone.CloneNullishFree` | src/clone.ts:7-13 | with nullish off, no object or array of the clone holds null or undefined at any depth |
| `Clone.ClonePruned` | src/clone.ts:6-14 | at every depth the clone's keys are among the input's and its values come from the input |
| `Clone.CloneIdentity` | src/clone.ts:4-16 | a tree without trailing empty slots is cloned to an equal tree with nullish on, and so is one without null or undefined for either flag |
| `Clone.CloneOfCanonical` | src/clone.ts:4-16 | deepClone with the default flag returns an equal object or array when it holds no empty slot as an object value and no array ending in an empty slot |
| `Clone.CloneIdempotent` | src/clone.ts:4-16 | for every argument, cloning a clone with the same flag gives the same tree |
| `Clone.CopyIsClone` | src/deep.ts:58-70 | deep.ts's copy with nullish off equals deepClone with nullish off |
| `Clone.DeepClone` | src/clone.ts:4-16 | computes Clone; an array gives an array and anything else an object (a string gives the object of its indices) |
| `Clone.CloneItems` | src/clone.ts:5-14 | the loop over an array's indices computes CloneArray |
| `Clone.CloneFields` | src/clone.ts:5-14 | the loop over an object's keys computes CloneMap |
| `Clone.DeepCopyArray` | src/clone.ts:24-26 | deepCopyArray equals deepClone of the array |
| `LegacyMerge.IsSimpleType` | src/deep-merge.ts:58-60 | the local classifier is isPrimitiveOrFunction |
| `LegacyMerge.MergeByPriority` | src/deep-merge.ts:28-47 | the two loops with the priority side first: no key outside the two sides' keys |
| `LegacyMerge.Merged` | src/deep-merge.ts:19-49 | merge: a key is present exactly when one side holds a simple value or an object; every simple value of the priority side comes out as it is |
| `LegacyMerge.SimpleWins` | src/deep-merge.ts:29-30 | every simple value on the priority side comes out as it is, whatever the other side holds |
| `LegacyMerge.MergeKey` | src/deep-merge.ts:25-48 | per key, whatever either side holds: a simple value on the priority side wins, an object there is merged with the entries of the other side's value, an array there does not shadow the other side's kept value (a simple value or an object), which is copied |
| `LegacyMerge.ArraySkippedMerged` | src/deep-merge.ts:28-47 | `merge({a: [1]}, {a: {b: 1}})` is `{a: {b: 1}}`: the array is skipped and the object copied |
| `LegacyMerge.MergeKeys` | src/deep-merge.ts:28-47 | the result's keys lie within the union of both sides' keys |
| `LegacyMerge.ObjectPriorityIsTarget` | src/deep-merge.ts:26-27 | priority "object" gives the same merge as "target" |
| `LegacyMerge.CopySeqFree` | src/deep-merge.ts:39-46 | `merge({}, v)` holds no array at any depth |
| `LegacyMerge.MergeSeqFree` | src/deep-merge.ts:28-47 | no array is emitted from either side at any depth |
| `LegacyMerge.CopyAgrees` | src/deep-merge.ts:44 | on array-free values this copy equals deep.ts's copy |
| `LegacyMerge.MergeAgreesByPriority` | src/deep-merge.ts:28-47 | on array-free inputs the two loops give the same map as deep.ts's loops |
| `LegacyMerge.MergeAgrees` | src/deep-merge.ts:19-49 | on array-free inputs merge equals deepMerge for every priority and flag |
| `LegacyMerge.MergeWithEmpty` | src/deep-merge.ts:44 | merge with an empty side is the copy CopyMap |
| `LegacyMerge.Merge` | src/deep-merge.ts:19-49 | the two loops compute Merged |
| `LegacyMerge.CopyObject` | src/deep-merge.ts:44 | the copy loop computes CopyMap |
| `LegacyCopyArray.CopyArray` | src/deep-copy-array.ts:11-23 | kept elements stay at their index, dropped ones leave empty slots, no trailing empty slot |
| `LegacyCopyArray.CopyKeepsIndices` | src/deep-copy-array.ts:13-21 | a non-nullish atom stays at its index, a null or undefined leaves it empty, a nested array is copied in place |
| `LegacyCopyArray.MapElementsPruned` | src/deep-copy-array.ts:16-17 | objects inside the copy hold neither arrays nor null or undefined |
| `LegacyCopyArray.MapCopyIdentity` | src/deep-copy-array.ts:17 | an object without arrays, null, undefined or empty-slot values is copied to an equal object |
| `LegacyCopyArray.CopyIdentity` | src/deep-copy-array.ts:11-23 | an array with no trailing empty slot at any depth and no empty slot as an object value, with no null or undefined elements, whose objects hold no arrays and no null or undefined, is copied to an equal array |
| `LegacyCopyArray.DeepCopyArray` | src/deep-copy-array.ts:11-23 | the index loop computes CopyArray |
| `PickKeys.PickFold` | src/pick.ts:25-31 | the reduce yields exactly the enumerated keys that are listed, with their original values |
| `PickKeys.Pick` | src/pick.ts:20-32 | exactly the object's keys that are listed, with their original values; listed keys it lacks contribute nothing |
| `PickKeys.PickOrderIrrelevant` | src/pick.ts:25 | the key enumeration order does not change the result |
| `PickKeys.PickOneIsList` | src/pick.ts:24 | a single key behaves as the one-element list, keeping that key alone if present |
| `OmitKeys.OmitFold` | src/omit.ts:33-39 | the reduce yields exactly the enumerated keys that are not listed, with their original values |
| `OmitKeys.Omit` | src/omit.ts:27-41 | without deep: exactly the object's unlisted keys with original values; with deep: exactly the unlisted keys whose value is not null or undefined, each holding the deepMerge copy of its value |
| `OmitKeys.OmitDeepNullishFree` | src/omit.ts:40 | with deep, no null or undefined remains at any depth |
| `OmitKeys.OmitOneIsList` | src/omit.ts:32 | a single key behaves as the one-element list |
| `OmitKeys.PickOmitPartition` | src/omit.ts:33-39 | pick and omit with the same keys have disjoint keys and together rebuild the object |

## Left out

- Deep.StringEntries: strings are sequences of code points, not of UTF-16 code units. JavaScript enumerates a character outside the Basic Multilingual Plane (an emoji, say) as two indices holding its two surrogate halves, while the model gives it one index. This affects deepMerge against a string counterpart and deepClone of a string.
- Deep.MergeKey: a function, number or boolean counterpart is read as an object without keys. JavaScript would read its built-in properties (such as a function's `name`) under a key of that name.
- Prototype keys are not modelled. A key such as `toString` satisfies `in` on a plain object and so affects get, set and deepMerge's second loop.
- Key order is not modelled: objects are maps. The order of `Object.keys` is a parameter (`order`) of pick and omit, and is proved irrelevant to the result.
- Aliasing is not modelled: nested objects are values. `PathSet.InternalSet` updates the root object in place. Below the root, the update is the value `SetPath` computes, so a subtree shared by two parents is not seen to change in both.
- Cyclic structures are not modelled: every tree is finite.
- Numbers are opaque tokens. No arithmetic happens, so floating point plays no part.
- Functions are opaque references with no properties of their own.
- The validators `isObject`, `isArray`, `isPrimitive`, `isNullish` and `isFunction` come from an external package. They are constructor tests on `Value`.
- The TypeScript type-level results (`DeepKeys`, `DeepGet`, `DeepSet`, `DeepMerge`, `DeepOmit`) are compile-time types from an external package.
- `deepOmit` is imported by test/omit.test.ts but is not defined in src/omit.ts, so it is not part of this model.
- test/merge.test.ts calls deepMerge with a boolean where a priority string is taken, and test/clone.test.ts reads the flag inverted and has arrays shrink where the code leaves empty slots. No property is taken from either.
- An empty slot as an object value never arises from JavaScript literals. Lemmas that compare a copy with its input require such trees to be absent (`Canonical`).
- Has.HasIffResolves: holds only for objects whose keys are all non-empty and dot-free, on paths of such segments. `Has.EmptyRootKeyCollapses` and `Has.TrailingDotDiffers` show that the relation fails outside those conditions.
- `get`'s optional default is an explicit argument; omitting it corresponds to passing `Undefined`.
