# immutableql in Dafny

A model of the core of immutableql. immutableql applies a change descriptor to a
JavaScript value and returns a new value. The descriptor is a nested record whose
keys and leaves can be *routine handles*: strings such as `$evolveq1$_#3`, which
`where`, `spread`, `alter`, `merge` and `remove` register in a table. `evolve`
walks the value and the descriptor together. It copies every level it descends
into and runs the registered routines. Afterwards it empties the table.

The model covers `lib/utils.js` and `lib/index.js`:

- `decimal.dfy` (module `Decimal`): decimal strings. They are array-index keys
  and the numeric suffix of every handle.
- `js_values.dfy` (module `JsValues`): the JavaScript values the core handles.
  These are undefined, null, booleans, integers, strings, arrays with holes
  (`seq<Option<Value>>`) and records (key order plus a map). The module also
  models `typeof`, truthiness, `String(v)` as a property key, and property
  reads (`obj[k]`) and writes (`obj[k] = x`). Writes follow sloppy mode: a write
  to a primitive is ignored, and null or undefined throws a `TypeError`.
- `utils.dfy` (module `Utils`): `getAllKeys`, `copy`, `copySubset`, `isLiteral`.
- `compare.dfy` (module `Compare`): `compareObjects`, `isSubtree`, `subtreesMatch`.
- `routines.dfy` (module `Routines`): `whereRoutine`, `spreadRoutine`,
  `alterRoutine`, `removeRoutine`, `isMatch`.
- `merge.dfy` (module `Merging`): `mergeByKey`, `mergeWithCondition`, `mergeRoutine`.
- `driver.dfy` (module `Driver`): `evolve_value`, `evolve_key`,
  `recursively_evolve`, and the fold of `evolve`.
- `registry.dfy` (module `Immutableql`): the state of the `immutableql()`
  closure. This is the class `Registry`: `current_pointer` is its field
  `counter`, and `calls_table` is its field `table`. The class has
  `getPointer`, `addCall`, the five builders and `evolve`. `evolve` resets
  the state.

Each function with a loop in the source has two parts here:

- a specification function, defined by recursion;
- a method with the source's loop, whose `ensures` equals that function.

The lemmas state what the functions mean. A thrown exception is `Err(TypeError)`.
A JavaScript value that the model cannot represent is `Err(Unsupported)`;
writing a non-index property into an array is the only case.

Routines are called with a `Context`:

- `KeyList(keys)` is key mode: the routine is a descriptor key and is given the
  current keys.
- `ParentKey(key)` is value mode: the routine is a descriptor leaf and is given
  the key of its parent.

A routine returns an `Outcome(result, subject)`. The subject is returned as
well because `mergeRoutine` writes into it even in key mode, and `evolve_key`
goes on with that written subject.

### Where the model follows the code rather than the documented intent

- Soft spread on an array subject keeps the entries at positions that are
  *occupied* in the subject (its test reads `value[i] !== undefined`). The
  documented intent is the opposite: skip occupied positions.
- Soft spread in key mode keeps a key when the first key in the current key
  list that differs from it is truthy (`Routines.SoftKeepMeaning`). It does not
  check "not already present". With two or more distinct non-empty keys, every
  item is kept (`Routines.SoftSpreadKeepsAllWithTwoKeys`); the empty key is
  falsy, so with the keys "" and "a" the item "b" is dropped.
- In `mergeWithCondition`, every matching incoming entry overwrites the old
  key, so the last match wins. Every matching entry leaves the unmatched pool,
  not only the first.
- An unmatched incoming entry is stored under its own key when that key reads
  falsy. Otherwise it is pushed when the subject is an array, and dropped when
  the subject is a record (`Merging.UnmatchedSharedKeyIsDropped`).
- `subtreesMatch` makes its nested call without a pattern, and that call
  throws. So only the first key of a join pattern matters, and a nested join
  pattern can never match (`Compare.NestedCallThrows`,
  `Compare.OtherFirstKeyNeverTrue`). Since no pass of its loop ever reaches
  the end of the body, the loop is modelled as its first pass.
- A join pattern `{ k: true }` compares the two values under `k`, so two
  primitive entries, which both read undefined there, always match
  (`Routines.NumbersAlwaysJoin`).

## Model

| member | source | states |
|---|---|---|
| Decimal.ParseIndex | lib/utils.js:10-12 | a key names an array index only if it is the canonical decimal string of a number below 2^32-1 |
| Decimal.DigitsRoundTrip | lib/index.js:7 | the decimal rendering of n is canonical and denotes n |
| Decimal.CanonicalRoundTrip | lib/utils.js:10-12 | rendering the number a canonical digit string denotes gives that string back |
| Decimal.ParseDigits | lib/utils.js:10-12 | the key of index n (below 2^32-1) parses back to n |
| Decimal.DigitsInjective | lib/index.js:7 | distinct numbers have distinct decimal renderings |
| Decimal.LeadingDigitPositive | lib/utils.js:10-12 | a digit string that starts with a non-zero digit denotes a positive number |
| JsValues.Get | lib/index.js:122 | reading a property throws exactly for undefined and null |
| JsValues.SetField | lib/index.js:123 | writing a record property gives a record |
| JsValues.Put | lib/index.js:123 | writing a property throws exactly for undefined, null, and a non-index key on an array |
| JsValues.GetPutSame | lib/index.js:123 | after a write to an array or record, the property reads the written value |
| JsValues.GetPutOther | lib/index.js:123 | a write leaves every other property as it was |
| JsValues.PutPut | lib/index.js:123 | a second write to the same property replaces the first |
| JsValues.SetFieldWf | lib/index.js:123 | writing keeps a record's keys distinct and in step with its bindings |
| Utils.GetAllKeys | lib/utils.js:10-12 | own keys throw exactly for undefined and null |
| Utils.OccupiedKeys | lib/utils.js:10-12 | an array's keys are the decimal indices of its non-hole slots |
| Utils.OccupiedDistinct | lib/utils.js:10-12 | an array's keys are pairwise distinct |
| Utils.IsLiteral | lib/utils.js:37 | a value is literal exactly when it is not a record (undefined, null and arrays are literal) |
| Utils.Dedup | lib/utils.js:50 | a Set over a key list holds each of its keys once and nothing else |
| Utils.Union | lib/utils.js:50 | the key union holds each key of either list once |
| Utils.Assign | lib/utils.js:20 | assigning properties onto a record gives a record |
| Utils.AssignBuilds | lib/utils.js:20 | assigning the bindings of distinct keys appends those keys with their values |
| Utils.CopyIsIdentity | lib/utils.js:14-23 | copy of an array keeps every slot, holes included, copy of a record keeps its keys and bindings, and any other value is returned as is |
| Utils.AssignWf | lib/utils.js:20 | assigning onto a well-formed record keeps it well-formed |
| Utils.CopyIdempotent | lib/utils.js:14-23 | copying a copy changes nothing |
| Utils.PushEachSlots | lib/utils.js:29 | pushing each field appends, in order, the values read under the fields |
| Utils.SubsetOfArray | lib/utils.js:27-29 | on an array, copySubset gives a packed array of the same length as the fields, whose i-th element is the value under the i-th field |
| Utils.SetEachFields | lib/utils.js:32 | setting each distinct field copies its value under that key, in order |
| Utils.SubsetOfRecord | lib/utils.js:30-32 | on anything else, copySubset gives a well-formed record whose keys are exactly the fields, with the original values |
| Utils.CopySubset | lib/utils.js:25-35 | the forEach loops compute exactly the copySubset specification |
| Compare.OwnChild | lib/utils.js:52 | an own property of an array or record is smaller than it, and reading it gives that property or undefined |
| Compare.ChildEqIsCompare | lib/utils.js:52 | the loop's step is compareObjects on the two property values |
| Compare.CompareOverAll | lib/utils.js:51-56 | the loop ends with true exactly when every key's values compare equal |
| Compare.EqualMeaning | lib/utils.js:39-57 | different typeof gives false, non-objects compare with ===, and two objects are equal exactly when the values under every key of either compare equal |
| Compare.EqualFlip | lib/utils.js:39-57 | when a equals b, b equals a |
| Compare.ChildFlip | lib/utils.js:52 | the per-key comparison is symmetric |
| Compare.EqualSymmetric | lib/utils.js:39-57 | compareObjects gives true in one argument order exactly when it does in the other |
| Compare.EqualReflexive | lib/utils.js:39-57 | a value with no null inside it is equal to itself |
| Compare.ChildReflexive | lib/utils.js:52 | each property of such a value equals itself |
| Compare.NullAmongObjectsThrows | lib/utils.js:40-50 | null compared with any object, null included, throws |
| Compare.EmptyArrayEqualsEmptyRecord | lib/utils.js:43-57 | an empty array and an empty record compare equal: kinds and lengths are never compared |
| Compare.EqualKeepsTruthiness | lib/utils.js:39-57 | equal values are both truthy or both falsy |
| Compare.CompareObjects | lib/utils.js:39-57 | the recursive loop computes exactly the compareObjects specification |
| Compare.SubtreeOverAll | lib/utils.js:77-85 | the loop ends with true exactly when every pattern key is met |
| Compare.SubtreeMeaning | lib/utils.js:76-86 | isSubtree is true exactly when every pattern key has a truthy property that compares equal to the pattern's |
| Compare.EmptyPatternMatchesAll | lib/utils.js:76-86 | a pattern without keys matches every root |
| Compare.FalsyPatternValueNeverMatches | lib/utils.js:78-83 | a pattern with a falsy value never matches |
| Compare.IsSubtree | lib/utils.js:76-86 | the loop computes exactly the isSubtree specification |
| Compare.NestedCallThrows | lib/utils.js:96 | the nested call, which has no pattern, throws |
| Compare.OnlyFirstKeyDecides | lib/utils.js:88-101 | the pattern reduced to its first key gives the same answer |
| Compare.TrueFirstKeyCompares | lib/utils.js:90-92 | a first pattern value of true compares the two properties, for any two values that are not null or undefined |
| Compare.OtherFirstKeyNeverTrue | lib/utils.js:93-98 | any other first pattern value never gives true: false if either side is falsy, a throw if both are truthy and neither is null or undefined |
| Compare.SubtreesMatch | lib/utils.js:88-101 | the method computes exactly the subtreesMatch specification |
| Routines.FilterKeysMeaning | lib/index.js:23 | the filter succeeds exactly when every test does, and keeps, in order, exactly the keys whose test gives the wanted answer (negated for is_not) |
| Routines.WhereRemoveComplement | lib/index.js:23 | with and without negation, each key is kept by exactly one of the two |
| Routines.WhereTrueKeepsAll | lib/index.js:15-17 | where(true) keeps every key |
| Routines.WhereOnRecord | lib/index.js:14-25 | in value mode on a record, where keeps the order-preserving sublist of matching keys with their values |
| Routines.ClearKeysMeaning | lib/index.js:33-35 | value-mode spread sets exactly the spread keys to undefined |
| Routines.ClearKeysOnRecord | lib/index.js:33-35 | on a record this never throws and gives a record |
| Routines.ClearKeysLoop | lib/index.js:33-35 | the loop computes exactly that specification |
| Routines.SpreadOnArrayIgnoresMode | lib/index.js:28-30 | on an array, key mode and value mode give the same result |
| Routines.HardSpreadOnArray | lib/index.js:29 | hard spread on an array is the subject followed by the items (holes read undefined) |
| Routines.SoftSpreadOnArray | lib/index.js:29 | soft spread on an array keeps at most the items; all of them when every position is occupied, none when none is |
| Routines.SoftSpreadKeepsByIndex | lib/index.js:29 | soft spread on an array keeps an item exactly when the subject does not read undefined at its index, and keeps the items in order |
| Routines.SoftKeepMeaning | lib/index.js:31 | a key is kept exactly when the first key different from it is truthy |
| Routines.KeepSoftAll | lib/index.js:31 | items that all pass are all kept |
| Routines.FirstOtherFound | lib/index.js:31 | find returns a different key whenever one exists |
| Routines.SoftSpreadKeepsAllWithTwoKeys | lib/index.js:31 | with two distinct non-empty current keys, soft spread keeps every item |
| Routines.SoftSpreadWithOneKey | lib/index.js:31 | with one current key, soft spread drops exactly that key |
| Routines.SpreadValueOnRecord | lib/index.js:31-37 | hard spread in value mode on a record returns the written subject, with the spread keys undefined and the rest unchanged |
| Routines.WhereAndRemovePartition | lib/index.js:96-103 | on a record, where and remove of the same filter keep complementary keys |
| Routines.JoinOnKeyCompares | lib/index.js:43-48 | joining on { k: true } matches exactly when the values under k compare equal, for any two values that are not null or undefined |
| Routines.NumbersAlwaysJoin | lib/index.js:43-48 | joining on { id: true } matches any two numbers |
| Merging.PairUpMeaning | lib/index.js:81-83 | each key of the union is paired as {old: copy or null, fresh: copy or null}, and no other key changes |
| Merging.MergeByKeyMeaning | lib/index.js:79-85 | the result pairs exactly the keys of either side and leaves the rest |
| Merging.PairUpOnRecord | lib/index.js:81-83 | the loop never throws on a record |
| Merging.MergeByKeyOnRecord | lib/index.js:79-85 | on a record subject, mergeByKey succeeds exactly when the incoming value is not null or undefined |
| Merging.MergeByKeyLoop | lib/index.js:79-85 | the loop computes exactly the mergeByKey specification |
| Merging.Without | lib/index.js:60 | deleting a key from the pool removes exactly that key |
| Merging.LastMatchMeaning | lib/index.js:55-62 | the chosen entry matches and no later one does; when none is chosen, none matches |
| Merging.MatchOneSubject | lib/index.js:55-62 | the inner loop writes only the old key, with the last match, and records whether any matched |
| Merging.MatchOneStep | lib/index.js:56-61 | one pass of the inner loop either overwrites the old key with the pair and takes the key out of the pool, when the entry matches, or changes nothing |
| Merging.MatchOneFrame | lib/index.js:55-62 | the inner loop keeps a container, records whether anything matched, and leaves every other key as it was |
| Merging.MatchOneOldKey | lib/index.js:55-62 | the inner loop leaves the old key with the last match, or as it was |
| Merging.MatchOnePool | lib/index.js:60 | the inner loop takes exactly the matching keys out of the pool |
| Merging.MatchOneKind | lib/index.js:59 | the inner loop keeps a record a record and an array an array no shorter than before |
| Merging.MatchAllKind | lib/index.js:52-66 | the outer loop keeps a record a record and an array an array no shorter than before |
| Merging.DistinctTail | lib/index.js:52-66 | a list of distinct keys has a distinct tail without its head, as the outer loop visits each old key once |
| Merging.OuterStepMeaning | lib/index.js:53-65 | one pass rewrites its old key, and only it, to the reconciled pair, and removes its matches from the pool |
| Merging.MatchAllSubject | lib/index.js:52-66 | after the outer loop, every old key holds its reconciled pair and nothing else changed |
| Merging.MatchAllPool | lib/index.js:51-66 | after the outer loop, the pool holds exactly the incoming keys that no old value matched |
| Merging.PlaceUnmatchedOnRecord | lib/index.js:67-75 | on a record, an unmatched entry is stored under its key exactly when that key reads falsy |
| Merging.PlaceStepOnArray | lib/index.js:68-74 | one pass of the last loop on an array writes the entry at its own index when that reads falsy, and pushes it otherwise |
| Merging.ArrayMatchAll | lib/index.js:51-66 | on an array, the outer loop leaves an array no shorter, every old index reconciled, and every unmatched incoming key in the pool |
| Merging.PlaceUnmatchedOnArray | lib/index.js:67-75 | on an array, truthy slots are kept, the array never shrinks, and each unmatched entry lands at its own index or past the old end |
| Merging.MergeWithConditionOnArray | lib/index.js:50-77 | on an array, every old index ends as {old, last match or null}, and every unmatched incoming entry appears at its own index or past the old end |
| Merging.MergeWithConditionOnRecord | lib/index.js:50-77 | every old key ends as {old, last match or null}, an unmatched incoming key is added only where the record lacks it, and nothing else is added |
| Merging.UnmatchedSharedKeyIsDropped | lib/index.js:68-74 | an unmatched entry whose key the record already has is lost |
| Merging.UnmatchedEntryIsPushed | lib/index.js:71-73 | an unmatched entry whose key is truthy in an array is pushed at the end |
| Merging.MatchIncoming | lib/index.js:55-62 | the inner loop computes exactly its specification |
| Merging.PlaceUnmatchedLoop | lib/index.js:67-75 | the last loop computes exactly its specification |
| Merging.MergeWithConditionLoop | lib/index.js:50-77 | the nested loops compute exactly the mergeWithCondition specification |
| Merging.MergeCall | lib/index.js:87-94 | value mode returns the merged subject, key mode its keys |
| Driver.UndefinedChangeCopies | lib/index.js:130-133 | an undefined change returns the copy |
| Driver.LiteralChange | lib/index.js:111-114 | a literal change returns itself unless it is a handle; then it returns the routine's value-mode result on the copy |
| Driver.ResetRule | lib/index.js:121-123 | a child is replaced by {} exactly when its typeof is not 'object' and the change is a record |
| Driver.PointersInOrder | lib/index.js:117-125 | descriptor keys are applied in order, each to the subject the previous ones left |
| Driver.LiteralIgnoresChild | lib/index.js:134-135 | a literal change that is not a handle gives itself, whatever the child |
| Driver.TargetsGetLiteral | lib/index.js:120-124 | with a literal change, every target key reads it afterwards and every other key is unchanged |
| Driver.UntargetedKeysUnchanged | lib/index.js:120-124 | keys that are not targeted are unchanged |
| Driver.PresentKeys | lib/index.js:119-120 | forEach over a key array visits the keys in order |
| Driver.PlainKeyTargetsItself | lib/index.js:119 | a plain descriptor key targets exactly itself |
| Driver.WhereTrueAsKey | lib/index.js:118-124 | where(true) as a descriptor key sets every key of the record |
| Driver.RemoveAsKeyThrows | lib/index.js:96-103 | remove() used as a descriptor key throws |
| Driver.NullChildThrows | lib/index.js:122 | a null child is not reset, so a record change under it throws |
| Driver.IndexPastEndLeavesHoles | lib/index.js:120-123 | a literal change under an index i at or past the end of an array makes it i+1 long: old slots kept, holes up to i, the literal at i |
| Driver.AlterAsValue | lib/index.js:111-114 | alter() (alterRoutine, lib/index.js line 41) as a change gives the callback's result on the parent key and a copy of the value |
| Driver.AlterAsKey | lib/index.js:118-120 | alter() as a descriptor key hands the callback the array of current keys; an array result names the targets, anything else throws |
| JsValues.PutShape | lib/index.js:123 | a write keeps a record a record and an array an array no shorter |
| JsValues.PutPastEnd | lib/index.js:123 | a write at or past the end keeps the old slots, leaves holes before the index and stores the value there |
| Driver.FoldAppend | lib/index.js:142-145 | evolving with a concatenation of changes evolves with the first part, then the second |
| Driver.EvolveTwoChanges | lib/index.js:140-148 | evolve with an array of two changes applies the second to the result of the first |
| Driver.CallRoutine | lib/index.js:113 | running a routine, with its loops, computes exactly the routine's specification |
| Driver.RecursivelyEvolve | lib/index.js:129-138 | the method computes exactly the recursively_evolve specification |
| Driver.EvolveKey | lib/index.js:116-127 | the loop over descriptor keys computes exactly its specification |
| Driver.EvolveEach | lib/index.js:120-124 | the forEach over targets computes exactly its specification |
| Driver.EvolveChanges | lib/index.js:141-148 | the fold loop computes exactly its specification |
| Immutableql.HandleInjective | lib/index.js:7 | two handles are equal exactly when their numbers are |
| Immutableql.HandlesIssued | lib/index.js:7-12 | the handles issued so far are exactly those numbered 1 to the counter |
| Immutableql.NumberIsNoHandle | lib/index.js:112 | a number's key is never a handle |
| Immutableql.Registry.constructor | lib/index.js:4-5 | the counter starts at 0 and the table empty |
| Immutableql.Registry.GetPointer | lib/index.js:7 | the counter goes up by one and the handle carries the new number |
| Immutableql.Registry.AddCall | lib/index.js:8-12 | the routine is stored under a handle not in use before, and nothing else changes |
| Immutableql.Registry.Where | lib/index.js:105 | registers a where routine under a new handle |
| Immutableql.Registry.Spread | lib/index.js:106 | registers a spread routine under a new handle |
| Immutableql.Registry.Alter | lib/index.js:107 | registers an alter routine under a new handle |
| Immutableql.Registry.Merge | lib/index.js:108 | registers a merge routine under a new handle |
| Immutableql.Registry.Remove | lib/index.js:109 | registers a remove routine under a new handle |
| Immutableql.Registry.Evolve | lib/index.js:140-152 | the result is the evolution under the current table; after a normal return the counter is 0 and the table empty, an exception leaves both unchanged |
| Immutableql.EveryKeyToFive | lib/index.js:105 | evolve(value, { [where(true)]: 5 }) sets every key of a record to 5 and adds none |

## Left out

- Symbol keys and the polyfill of `Object.assign` are left out. Keys are
  strings, and `copy` of a record is the assignment of its own keys.
- Prototypes, inherited properties and objects other than arrays and plain
  records are left out. `copy` gives a plain record.
- `compareArrays` is left out: `compareObjects` never calls it, because two
  arrays have `typeof` 'object'.
- Numbers are integers only. No floating point, NaN or infinities.
- Records keep insertion order. JavaScript's rule that integer-like keys come
  first in `Object.keys` is not modelled.
- Strings have no `length` property: `"abc".length` reads undefined in the
  model, where JavaScript gives 3.
- Strings are sequences of Dafny characters, not of UTF-16 code units. For a
  string with characters outside the Basic Multilingual Plane, `Object.keys`
  and indexing give different results in JavaScript.
- `String(n)` of a number renders every integer in full. JavaScript switches
  to exponent form from 1e21 and rounds integers above 2^53.
- Arrays have no named properties and no `length` property. A write of a
  non-index key into an array is `Err(Unsupported)`, not a JavaScript result.
- A push past index 2^32-2 is not bounded. JavaScript would throw a
  `RangeError` there.
- Sloppy mode: `lib/` has no `'use strict'`, so a write to a primitive is
  ignored. Strict mode, where such a write throws, is not modelled.
- Callbacks (`where` predicates, `alter` functions, join functions) are pure,
  total Dafny functions. Callbacks that throw, have side effects, or mutate the
  subject are not modelled.
- `===` between objects compares identity in JavaScript; the model compares
  values structurally. The source uses `===` on objects only where an array
  item is compared with a key or `undefined`.
- Non-mutation is not a separate property. Values are immutable in Dafny, so
  the caller's input cannot change; aliasing between levels of the original
  is not represented.
- Compare.SubtreesMatch: the source's loop over the pattern keys is modelled
  as its first pass, because every path through that pass leaves the function.
- Merging.MergeWithConditionOnArray: states where every old index and every
  unmatched entry ends up. It does not state the order of the pushed entries, or
  that an array result holds nothing else; the record case has that closed form
  (`Merging.MergeWithConditionOnRecord`).
- Driver.TargetsGetLiteral: stated for a literal change under a descriptor
  key; for a record change the target is given by the recursive definition
  only, not by a closed form.
- The exported singleton `module.exports = immutableql()` and the `dist/`
  build are not part of this model.
