# OptionsClass: a Dafny model of dot-notation options

The PHP library keeps a tree of options, either in one process-wide static
array (`OptionsHelper`) or per object (`OptionsClass`). Callers address the tree
with dotted keys such as `'a.b.c'`. This project models that store and the
dot-path engine under it. The proofs cover:

- turning a dotted key into nested arrays (`dotStringToArray`) and expanding
  dotted keys at every depth of a data array (`dotDataToArray`);
- reading back along a path (`getOption`) and writing along one
  (`updateOption`, `unsetOption`, `setOption`);
- loading and merging whole data (`setOptions`, `updateOptions`, the constructor);
- walking the first keys of an array into a dotted string (`arrayToDotString`);
- the two segment helpers (`dotStringModifyLevel`, `dotStringLevel`);
- the substring search that returns a pruned sub-tree (`getParentStack`).

A PHP array is an ordered association list, `Assoc = Nil | Cons(key, val, rest)`.
Its values are `Value = Null | Str(s) | Arr(a)`. Key order is kept, because
`arrayToDotString` and the merge depend on it.

The modules follow the program:

- `Strings` (strings.dfy) holds `explode`, `implode`, `strpos` and `strrpos`.
- `PhpArray` (phparray.dfy) holds array reads and writes. It also defines the
  shape invariants: `Wf` (no repeated key at any depth), `DotFree` (no dotted
  key at any depth), `Normal` (both) and `Clean` (no null and no empty array
  at any depth).
- `ArrayHelper` (arrayhelper.dfy) models the two borrowed utilities.
- `OptionsHelper` (optionshelper.dfy) is the dot-path engine.
- `OptionsStore` (optionsclass.dfy) is the store and its transitions.
- `Examples` (examples.dfy) proves the worked examples from the doc comments
  and the unit test.

The `ArrayHelper` dependency is not part of this model. Its `merge` and
`filterRecursive` are defined in `ArrayHelper` as stated assumptions:

- **merge** is a deep merge. Where both sides hold an array it recurses.
  Otherwise the incoming value overwrites, null included. Keys only in the
  base stay where they are, and new keys are appended.
- **filterRecursive** filters bottom-up, using the callback that `unsetOption`
  passes, which drops null and the empty array.

The static and the instance store run the same algorithm, so both are the one
state value `OptionsStore.Store`.

## Model

| member | source | states |
|---|---|---|
| Strings.Split | OptionsHelper.php:169 | `explode('.', …)` always yields at least one segment |
| Strings.SplitDotFree | OptionsHelper.php:169 | no exploded segment contains a dot |
| Strings.JoinSplit | OptionsHelper.php:169 | imploding the exploded segments with '.' gives the original key back |
| Strings.SplitJoin | OptionsHelper.php:169 | exploding an implode of one or more dot-free segments gives the segments back |
| Strings.SplitConcat | OptionsHelper.php:169 | exploding `a.b` is exploding `a` followed by exploding `b` |
| Strings.SplitSingle | OptionsHelper.php:168-180 | a key explodes to one segment exactly when `strpos($key, '.')` is false, so the plain-key branch and the chain of length one agree |
| Strings.IndexOf | OptionsHelper.php:234 | `strpos` of one character gives an offset inside the string where that character sits |
| Strings.IndexOfFinds | OptionsHelper.php:234 | `strpos` is false exactly when the character is absent; otherwise it is the first occurrence |
| Strings.LastIndexOf | OptionsHelper.php:234 | `strrpos` of one character gives an offset inside the string where that character sits |
| Strings.LastIndexOfFinds | OptionsHelper.php:234 | `strrpos` is false exactly when the character is absent; otherwise it is the last occurrence |
| ArrayHelper.Merge | OptionsHelper.php:43 | the merged array has the keys of both sides |
| ArrayHelper.GetMerge | OptionsHelper.php:43 | after a merge, each key reads the incoming entry merged into the old one, or the old entry if the key is not incoming |
| ArrayHelper.MergeNormal | OptionsHelper.php:43 | merging two normal trees gives a normal tree |
| ArrayHelper.MergeSelf | OptionsHelper.php:43 | merging a well-formed array into itself changes nothing |
| ArrayHelper.Prune | OptionsHelper.php:124-126 | the filtered array keeps a subset of the keys, and no null or empty array is left at any depth |
| ArrayHelper.GetPrune | OptionsHelper.php:124-126 | after filtering, a key reads its filtered value if that survives the callback, otherwise nothing |
| ArrayHelper.PruneClean | OptionsHelper.php:124-126 | filtering an array without nulls or empty arrays leaves it as it is |
| ArrayHelper.PruneIdempotent | OptionsHelper.php:124-126 | filtering twice is filtering once |
| ArrayHelper.PruneNormal | OptionsHelper.php:124-126 | filtering keeps a tree normal |
| ArrayHelper.PruneConcat | OptionsHelper.php:124-126 | filtering works entry by entry, so it distributes over concatenation |
| OptionsHelper.DotStringToArray | OptionsHelper.php:164-181 | the result has the key's first segment as its only key and is normal |
| OptionsHelper.DotStringToArrayIsChain | OptionsHelper.php:164-181 | the result is one single-key level per segment with the normalised value at the bottom; expanding it again changes nothing |
| OptionsHelper.DotDataToArray | OptionsHelper.php:204-221 | the result is empty exactly when the data is empty |
| OptionsHelper.DotDataToArrayNormal | OptionsHelper.php:204-221 | no key at any depth of the result contains a dot, and none repeats |
| OptionsHelper.NormalFixed | OptionsHelper.php:204-221 | data already nested, with no dotted or repeated key, comes back unchanged |
| OptionsHelper.DotDataToArrayIdempotent | OptionsHelper.php:204-221 | expanding twice is expanding once |
| OptionsHelper.DotDataToArrayStep | OptionsHelper.php:210-216 | normalising the value again inside `dotStringToArray` changes nothing, so each entry contributes its chain |
| OptionsHelper.ArrayToDotString | OptionsHelper.php:223-230 | the result is the first key of each level, descending through non-empty arrays, joined with '.' |
| OptionsHelper.ArrayToDotStringRoundTrip | OptionsHelper.php:223-230 | `arrayToDotString(dotStringToArray($p, $v))` is `$p` unless `$v` is a non-empty array |
| OptionsHelper.GetPath | OptionsHelper.php:148-153 | the `foreach` of `getOption`: after at least one step the answer is the fallback or a non-null value, because `isset` rejects null |
| OptionsHelper.GetOption | OptionsHelper.php:145-154 | explodes the key and walks the tree; the answer is the fallback or a non-null value |
| OptionsHelper.GetPathChain | OptionsHelper.php:145-154 | looking up a chain along its own segments finds its bottom value, or the fallback if that is null |
| OptionsHelper.MergeChainSets | OptionsHelper.php:78-81 | merging a chain in makes its path read the non-null bottom value, unless an array bottom lands on an existing array (an array over a scalar overwrites it) |
| OptionsHelper.MergeChainMerges | OptionsHelper.php:78-81 | merging an array chain onto a path holding an array leaves the deep merge of the two there |
| OptionsHelper.MergeChainElsewhere | OptionsHelper.php:78-81 | merging a chain in leaves every path that parts ways with it reading as before |
| OptionsHelper.GetPathPrune | OptionsHelper.php:124-126 | filtering leaves every path that read a non-null scalar reading the same scalar |
| OptionsHelper.UnsetPathReadsNotFound | OptionsHelper.php:121-127 | writing null along a path and filtering leaves that path reading the fallback |
| OptionsHelper.PruneNullChain | OptionsHelper.php:121-127 | a chain ending in null is swept away entirely |
| OptionsHelper.DotStringModifyLevel | OptionsHelper.php:232-243 | the `strpos`/`strrpos` loop; a level >= 0 leaves a suffix of the string and a negative level leaves a prefix |
| OptionsHelper.ModifyLevelStripsLeading | OptionsHelper.php:232-243 | for a path without empty segments, level n >= 0 drops the first n segments; it gives '' when no segment would remain |
| OptionsHelper.ModifyLevelStripsTrailing | OptionsHelper.php:232-243 | for a path without empty segments, level -n drops the last n segments; it gives '' when no segment would remain |
| OptionsHelper.DotStringLevel | OptionsHelper.php:245-258 | the same loop remembering the part it cut off; for a non-zero level the answer never contains a dot |
| OptionsHelper.LevelNamesLeadingSegment | OptionsHelper.php:245-258 | for a path without empty segments, level n > 0 gives segment n counting from the front; it gives '' when that step runs out of dots |
| OptionsHelper.LevelNamesTrailingSegment | OptionsHelper.php:245-258 | for a path without empty segments, level -n gives segment n counting from the back; it gives '' when that step runs out of dots |
| OptionsHelper.GetParentStack | OptionsHelper.php:260-279 | a non-false result is non-empty and uses only keys of the searched level |
| OptionsHelper.ParentEntries | OptionsHelper.php:262-277 | the `foreach` of `getParentStack`: it keeps only keys of the searched level, in order |
| OptionsHelper.ParentStackFalseIffNoMatch | OptionsHelper.php:260-279 | the result is false exactly when no array key and no scalar anywhere in the tree contains the needle |
| OptionsHelper.ParentStackEntries | OptionsHelper.php:260-279 | key by key, a matching array key keeps its array whole, any other array keeps only its matching descendants, and a scalar is kept when its text matches |
| OptionsStore.Create | OptionsClass.php:20-24 | the new store is normal and empty unless the argument is truthy |
| OptionsStore.CreateLoads | OptionsClass.php:20-24 | an array that is already nested, with no dotted or repeated key, is stored as given; an argument that is not an array leaves the store empty |
| OptionsStore.SetOptions | OptionsClass.php:36-38 | the stored tree is normal |
| OptionsStore.GetOptions | OptionsClass.php:55-57 | returns the tree as it is; for a normal store, loading it back with `setOptions` gives the same store |
| OptionsStore.SetOptionsReplaces | OptionsClass.php:36-38 | the old tree is forgotten, and already-nested data is stored as given |
| OptionsStore.SetOptionsOwnTree | OptionsClass.php:36-38 | loading the store's own tree again changes nothing |
| OptionsStore.UpdateOptions | OptionsClass.php:47-50 | the tree's keys become the old keys plus the keys of the expanded data |
| OptionsStore.UpdateOptionsReads | OptionsClass.php:47-50 | each key reads the expanded data's entry deep-merged into the old one, or the old entry if the data does not name it |
| OptionsStore.UpdateOptionsOwnTree | OptionsClass.php:47-50 | merging in the store's own tree changes nothing |
| OptionsStore.UpdateOptionsKeepsInv | OptionsClass.php:47-50 | merging keeps the store normal |
| OptionsStore.UpdateOptionMergesChain | OptionsClass.php:79-82 | the tree merged in is the chain that the dotted key spells out |
| OptionsStore.UpdateOption | OptionsClass.php:79-82 | writes the chain of the dotted key into the tree; the only top-level key it can add is the key's first segment |
| OptionsStore.UpdateOptionSets | OptionsClass.php:79-82 | after writing any non-null value, the key reads that value normalised, unless an array lands on an array already there |
| OptionsStore.UpdateOptionScalar | OptionsClass.php:79-82 | after writing a string, the key reads that string |
| OptionsStore.UpdateOptionMerges | OptionsClass.php:79-82 | writing an array onto a key that holds an array merges the two, so siblings stay |
| OptionsStore.UpdateOptionElsewhere | OptionsClass.php:79-82 | every path that parts ways with the key reads as before |
| OptionsStore.UnsetOption | OptionsClass.php:122-128 | afterwards no null or empty array is left anywhere in the tree |
| OptionsStore.UnsetOptionMergesChain | OptionsClass.php:122-128 | the tree merged in is the chain of the key ending in null |
| OptionsStore.UnsetOptionKeepsInv | OptionsClass.php:122-128 | unsetting keeps the store normal |
| OptionsStore.UnsetOptionReadsFallback | OptionsClass.php:122-128 | afterwards, reading the key gives the caller's fallback |
| OptionsStore.UnsetOptionElsewhere | OptionsClass.php:122-128 | every non-null scalar on a path that parts ways with the key is still there |
| OptionsStore.UnsetOptionAddsNoKey | OptionsClass.php:122-128 | unsetting never adds a top-level key: a new first segment is swept out with its null chain |
| OptionsStore.UnsetOptionAbsent | OptionsClass.php:122-128 | a clean tree whose top level lacks the key's first segment is left unchanged |
| OptionsStore.UnsetOptionThroughScalar | OptionsClass.php:122-128 | unsetting `'a.b'` where `a` holds a scalar removes `a` |
| OptionsStore.SetOption | OptionsClass.php:102-105 | unset then update: afterwards the key's first segment is present, and no other top-level key was added |
| OptionsStore.SetOptionReplaces | OptionsClass.php:102-105 | after setting any non-null value, the key reads that value normalised: it is replaced, not merged |
| OptionsStore.SetOptionScalar | OptionsClass.php:102-105 | after setting a string, the key reads that string |
| OptionsStore.SetOptionElsewhere | OptionsClass.php:102-105 | every non-null scalar on a path that parts ways with the key is still there |
| OptionsStore.GetOption | OptionsClass.php:146-155 | the lookup over the store's tree: the answer is the fallback or a non-null value, never a stored null |
| OptionsStore.TransitionsKeepInv | OptionsClass.php:36-128 | `setOptions`, `updateOptions`, `updateOption`, `unsetOption` and `setOption` all keep the store normal |
| Examples.SplitABC | OptionsHelper.php:169 | `explode('.', 'a.b.c')` is `['a', 'b', 'c']` |
| Examples.DotStringToArrayExample | OptionsHelper.php:156-158 | `dotStringToArray('a.b.c', 'abc-value')` nests three levels |
| Examples.DotStringToArrayPlainKey | OptionsHelper.php:180 | a dot-free key gives `array($key => $value)` |
| Examples.DotDataToArrayExample | OptionsHelper.php:186-199 | the doc example: `'x.y'` and `'x.z'` merge under one `x`, and `'b.c'` nested under `a` expands too |
| Examples.ArrayToDotStringTests | test/OptionsHelperTest.php:18-38 | both unit-test cases, including a dotted key that is copied as it is |
| Examples.GetOptionExample | OptionsHelper.php:132-139 | `getOption('a.b')` is `'ab-value'`, and a missing path gives the fallback |
| Examples.UpdateOptionExample | OptionsHelper.php:59-73 | `updateOption('a', array('d' => …))` keeps `b` and `c` beside the new `d` |
| Examples.UnsetOptionExample | OptionsHelper.php:121-127 | `unsetOption('a.b')` also removes the emptied `a`, leaving only `x` |
| Examples.UnsetOptionTopLevelOnly | OptionsHelper.php:107-127 | `unsetOption('b')` on the doc tree changes nothing, because `'b'` reaches only a top-level key |
| Examples.SetOptionExample | OptionsHelper.php:84-104 | `setOption('a', array('d' => …))` drops `b` and `c`; `a` is re-appended after `x` |
| Examples.LevelOneExample | OptionsHelper.php:232-258 | on `'a.b.c'`, level 1 gives `'b.c'` and `'a'` |
| Examples.LevelMinusOneExample | OptionsHelper.php:232-258 | on `'a.b.c'`, level -1 gives `'a.b'` and `'c'` |
| Examples.LevelBoundsExample | OptionsHelper.php:232-258 | level 0 returns the string; three steps on three segments give '' |
| Examples.LeadingDotStops | OptionsHelper.php:235 | a dot at offset 0 makes both helpers return '' for every non-zero level |
| Examples.ParentStackExample | OptionsHelper.php:260-279 | a matching scalar keeps its branch with only the matches; a tree without a match gives false |

## Left out

- `updateUndefinedOptions` (OptionsHelper.php:46-49) is not modelled. It delegates to `ArrayHelper::mergeOnlyUndefined`, which is not part of this model. `OptionsClass` has no counterpart.
- `ArrayHelper::merge`, `ArrayHelper::filterRecursive`, `Is::emptyArray` and `Is::notEmptyArray` are defined from their use rather than from their source, which is not part of this model.
- The `BOWER_PATH` bootstrap and `require_once` lines, and demo/index.php, are not modelled. They only load files and dump a store built from sample data.
- PHP type juggling is not modelled:
  - Every key and every scalar is a string.
  - Numeric-string keys are not converted to integers.
  - `(string)` casts are identities.
  - `is_numeric($found)` in the level helpers is the test whether `strpos`/`strrpos` found the dot. The model writes it as `found.Some?`.
  - Booleans, integers and floats are not distinguished from strings.
- The static and the instance store are one state value. Sharing the static array across callers is not modelled.
- `setOptions`, `updateOptions` and the constructor take their data as an array in the model (`OptionsStore.SetOptions` and `OptionsStore.UpdateOptions` take an `Assoc`). In PHP, `foreach` over a non-array runs over nothing. So `setOptions('x')` stores an empty array, `updateOptions('x')` changes nothing, and a truthy non-array passed to the constructor leaves the store empty. The constructor models this through `Entries`; for the two methods it is the same as passing the empty array. The warning PHP prints is not modelled.
- OptionsStore.UnsetOption: the ensures states only that the tree is clean. Which keys remain is stated by `UnsetOptionReadsFallback`, `UnsetOptionElsewhere`, `UnsetOptionAbsent` and `UnsetOptionThroughScalar`.
- OptionsStore.UnsetOptionElsewhere: this covers non-null scalars only. The sweep removes every null and empty array in the tree, wherever it sits.
- OptionsStore.SetOptionElsewhere: this is restricted to non-null scalars for the same reason.
- OptionsStore.SetOptionReplaces: this requires a non-null value. Setting null stores null, and `getOption` reads a stored null as not set.
- OptionsHelper.ModifyLevelStripsLeading: this is stated only for paths without empty segments.
  - A leading dot, a trailing dot or a doubled dot stops the loop early with ''.
  - The functions model those inputs exactly, and `Examples.LeadingDotStops` shows one case.
- OptionsHelper.ModifyLevelStripsTrailing: as for the leading case.
- OptionsHelper.LevelNamesLeadingSegment: as for the leading case.
- OptionsHelper.LevelNamesTrailingSegment: as for the leading case.
- The default arguments of `getOption`, `dotStringModifyLevel` and `dotStringLevel` are not modelled. Callers always pass the argument.
- A few behaviours follow the code where the doc comments differ:
  - The doc comment of `OptionsHelper::unsetOption` (OptionsHelper.php:114) shows `unsetOption('b')` removing the nested `b`. The code only reaches a top-level `b` (`Examples.UnsetOptionTopLevelOnly`). The same example in OptionsClass.php:115 uses `'a.b'`, which agrees with the code.
  - The doc comment of `setOption` lists `a` first. The code re-appends `a` after `x`.
  - Null values written by `setOptions` or `updateOption` stay in the tree. Only `unsetOption` sweeps them out.
- Equality in the model is order-sensitive. PHP's `==` on arrays is not.
- For a non-array argument, `arrayToDotString` returns `''` in the model. This is PHP 8's `substr('', 0, -1)`; older PHP returned false.
- `strpos` with an empty needle counts as a match at offset 0 (PHP 8). Older PHP warned and returned false.
