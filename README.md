# ImmutableUpdater in Dafny

A model of the JavaScript class `ImmutableUpdater` (`index.js`). The class wraps a root value and
edits it by path. `get(path)` reads the value at a path. `set(path, value)`, `delete(path)` and
`merge(path, value)` deep-clone the root, walk the clone key by key with `keys.reduce`, change the
entry named by the last key, and return a new `ImmutableUpdater` over the edited clone. Paths such
as `a.b[0].c` are cut into keys by the regular expression `/[^.[\]]+/g`.

The modules follow the parts of the class:

- `ArrayIndex` (`array_index.dfy`): the names under which an array answers `arr[key]`, which are
  the canonical decimal spellings of its indices.
- `JsValue` (`js_value.dfy`): the values. They are primitives, arrays and plain objects. An array
  is a sequence of slots, and a slot is a `Hole` where `delete arr[i]` removed the element. The
  module also holds `isObject`, truthiness, `acc[key]`, `acc[key] = x`, `delete acc[key]` and the
  object spread `{ ...a, ...b }`.
- `DeepClone` (`deep_clone.dfy`): `cloneDeep`. The function `Clone` specifies it, and the methods
  `CloneDeep`, `CloneArray` and `CloneObject` carry its `for…in` loop.
- `PathParser` (`path_parser.dfy`): `parsePath`, the errors a call can throw, and their messages.
- `Reads` (`reads.dfy`): the reduce of `get`.
- `Edits` (`edits.dfy`): the reduce that `set`, `delete` and `merge` share.
  - `EditAt` is the walk written as a function of the tree it starts from.
  - `Walk` is the loop itself. Its `acc` is reassigned at each key.
  - The stack of `Hold`s records how each container hangs from the root. This makes the writes
    into `acc` visible from `newObject`, as aliasing does in the source.
  - `Walk` is proved to compute `EditAt`.
- `Updater` (`updater.dfy`): the class. `Updated` is the specification of the three editing
  methods. The lemmas beside it state what every edit promises.

A thrown error is modelled as `Failure(e)` in a `Result`. `Message` gives each error's exact text.

What the code does on paths, values and arrays, as the model states it:

- Paths are strict. Every key must already name an entry, or the call throws
  `Path '<prefix>' does not exist.`. Missing containers are never created (`SetCreatesNothing`).
  When `set` or `merge` meets a primitive before the last key, it replaces it with an empty `{}`
  or `[]` (index.js:82-83 for `set`, index.js:173-174 for `merge`). That container is empty, so the next key is missing from it and the
  call throws there (`EditInEmpty`). `delete` does the same with the detached `{}` it returns on
  meeting a primitive (index.js:133). The other objects the code builds are the ones `merge` writes
  at the last key: `{}` over a primitive and then the spread (index.js:168-171).
- A path made only of separators, such as `'.'` or `'[]'`, passes the path check and has no keys.
  The reduce over no keys returns the bare clone, so `set('.', v)`, `delete('.')` and
  `merge('.', v)` with an object `v` return a copy of the root and ignore `v`
  (`Updated`, `SetDotIgnoresValue`).
- `delete` on an array element leaves a hole. The array keeps its length and later elements keep
  their indices (`DeleteLeavesHole`). Nothing shifts.
- There is no structural sharing. Every edit deep-clones the whole root first, so the result
  shares no container with `obj` other than what the caller passes in as `value`. Paths off the edited path read clones of what they read before
  (`EditFrame`).
- `get()` with no path, or with `''`, throws `Path must be a non-empty string.`. It does not
  return the root.

## Model

| member | source | states |
|---|---|---|
| ArrayIndex.IndexKeyRoundTrip | index.js:72 | the name of array index n is a canonical index key and spells n again |
| ArrayIndex.IndexKeyCanonical | index.js:72 | every canonical index key is the name of the index it spells, so an element has exactly one name |
| ArrayIndex.IndexKeyInjective | index.js:72 | two canonical keys spelling the same index are the same key |
| JsValue.IsObject | index.js:18-20 | `isObject` holds exactly for arrays and plain objects: `typeof` gives "object" and the value is not null |
| JsValue.Truthy | index.js:72 | every array and object is truthy, and `undefined` and `null` never are |
| JsValue.Lookup | index.js:72 | a primitive has no entries, and an object's key reads its own entry or nothing |
| JsValue.LookupInArray | index.js:72 | an array has an entry only at a canonical index inside it whose slot is present, and reads that element there; a hole, an index past the end or any other key reads nothing |
| JsValue.LookupOnlyInContainers | index.js:72 | `acc[key]` finds an entry only when `acc` is an array or an object |
| JsValue.Store | index.js:80 | after `acc[key] = x` the key reads x and every other key reads what it read; an array keeps its length, the written slot holds x and every other slot is as it was; an object keeps its key set |
| JsValue.StoreTwice | index.js:168-171 | merge's write of `{}` followed by the write of the merged object equals the second write alone |
| JsValue.StoreSame | index.js:77-79 | writing back the value an entry holds leaves the container unchanged |
| JsValue.Remove | index.js:130 | after `delete acc[key]` the key reads nothing and every other key reads what it read; an object loses exactly that key; an array keeps its length, has a hole at the index and every other slot as it was |
| JsValue.Entries | index.js:171 | the spread copies every own key of an object and every present index of an array, those holding `undefined` included, each with the value it reads; every key that reads something is among them; a primitive gives nothing |
| JsValue.Merged | index.js:168-171 | the merge result is an object whose keys are those of the target and those of the value; the value wins on its keys, and the target (`{}` when it was not an object) supplies the rest |
| JsValue.TidyLookup | index.js:35 | every entry of a value with no array ending in a hole has no such array either |
| DeepClone.Clone | index.js:27-39 | a primitive is returned as it is; only `undefined` copies to `undefined`; an array copies to an array that is never longer, and an object to an object with the same keys |
| DeepClone.ClonePresentSlots | index.js:33-35 | the copy of an array has a hole exactly where the array has one, up to its last present element, only holes are dropped after that, so it has the same present indices |
| DeepClone.Trim | index.js:32-37 | the copied array is a prefix of the slots, ends in an element, and only holes are dropped |
| DeepClone.LookupClone | index.js:33-36 | reading any key of a copy gives the copy of what the original reads there |
| DeepClone.CloneIsTidy | index.js:27-39 | no array in a copy ends in a hole |
| DeepClone.CloneOfTidy | index.js:27-39 | a value with no array ending in a hole is copied exactly |
| DeepClone.CloneIsExactIff | index.js:27-39 | the copy equals the original if and only if no array in it ends in a hole |
| DeepClone.CloneIdempotent | index.js:27-39 | copying a copy gives the same copy |
| DeepClone.CloneDeep | index.js:27-39 | `cloneDeep` returns primitives as they are and copies arrays and objects as `Clone` specifies |
| DeepClone.CloneArray | index.js:32-37 | the loop over an array's present indices builds `Clone` of the array, with inner holes kept and trailing holes dropped |
| DeepClone.CloneObject | index.js:32-37 | the loop over an object's own keys builds `Clone` of the object |
| PathParser.ParsePath | index.js:47-54 | the call fails, with the path error, exactly when the path is not a string or is empty; otherwise every key is non-empty without `.`, `[` or `]`, and the keys joined are the path without its separators |
| PathParser.Segments | index.js:52-53 | every key `path.match(/[^.[\]]+/g) \|\| []` gives (computed by `Scan`) is non-empty and free of separators, and the keys joined are the path without its separators |
| PathParser.ScanYieldsSegments | index.js:52-53 | every match of the expression is non-empty and holds no separator |
| PathParser.ScanKeepsCharacters | index.js:52-53 | the matches concatenated are the path with its separators removed |
| PathParser.ScanIsMaximalRuns | index.js:52-53 | the matches are exactly the non-empty pieces between separators, in order |
| PathParser.SeparatorsOnly | index.js:53 | a path made only of separators gives no keys (`match` returns null and `\|\| []` applies) |
| PathParser.ParseJoin | index.js:73 | the prefix quoted in a "does not exist" message, parsed again, gives back the keys it names |
| PathParser.Message | index.js:49-73 | a "does not exist" message is `Path '…' does not exist.`, and the path it quotes parses back to the keys of the missing prefix; the other two messages never have that shape |
| Reads.GetIn | index.js:105-107 | the reduce over no keys returns the root, and once it holds `undefined` it returns `undefined` |
| Reads.ReadStep | index.js:106 | one step of `get` is plain `acc[key]`: the truthiness test and the `!== undefined` guard never change the result |
| Reads.GetAppend | index.js:105-107 | reading `a + b` is reading `a` and then reading `b` from there |
| Reads.GetLast | index.js:105-107 | the last key of a path is read in the container the other keys reach |
| Reads.GetPrefixDefined | index.js:105-107 | a path that reads something reads something at each of its prefixes |
| Reads.GetClone | index.js:105-107 | reading a path in a copy gives the copy of what the original reads |
| Reads.GetTidy | index.js:105-107 | anything read from a value with no array ending in a hole has no such array either |
| Reads.GetSlice | index.js:105-107 | reading `keys[i..m]` is one lookup followed by reading `keys[i+1..m]` |
| Edits.EmptyFor | index.js:83 | the container `isNaN(next) ? {} : []` is an array or object, is its own copy, and has no entries |
| Edits.Finish | index.js:76-80 | the last key reads the value set, nothing after a delete, or the merge of the old entry with the value; every other key is untouched; an array keeps its length and every other slot, and the slot becomes a hole exactly for delete; an object keeps its key set, less the key for delete |
| Edits.EditInEmpty | index.js:132-133 | a walk that goes on inside a fresh `{}` or an empty replacement container fails at the next key |
| Edits.EditTree | index.js:71-88 | the walk fails only with "does not exist" for a non-empty prefix of the keys; a walk with keys that gets through started at an array or object and returns one of the same kind |
| Edits.EditRoot | index.js:68-88 | with no keys the result is the plain clone of `obj`; otherwise it fails only with "does not exist" for a non-empty prefix of the keys, or succeeds on an array or object and returns one of the same kind |
| Edits.EditAtFailsOnPrefix | index.js:72-74 | a walk from key i that throws, throws "does not exist" for a prefix of the keys that reaches past key i |
| Edits.EditAtKeepsKind | index.js:71-88 | a walk that gets through started at an array or object and returns one of the same kind |
| Edits.EditAtSucceeds | index.js:71-88 | the walk from key i succeeds if and only if the rest of the path reads something |
| Edits.EditAtFailure | index.js:72-74 | a failed walk over a tree with no array ending in a hole (a clone is one) throws "does not exist" for the shortest prefix of the keys that reads nothing |
| Edits.ShortestMissingStep | index.js:72-74 | the shortest missing prefix below the entry at key i is the shortest missing prefix from its container |
| Edits.EditAtParent | index.js:71-88 | on a tree with no array ending in a hole, after a successful walk, the container of the last key is the old one with the last step applied |
| Edits.EditAtDescends | index.js:81-86 | a middle step either goes on detached (delete through a primitive, `acc` unchanged) or stores the edited copy of a container child |
| Edits.EditAtFrame | index.js:71-88 | on a tree with no array ending in a hole, after a successful walk, every path that leaves the edited path reads what it read before |
| Edits.EditAtSameValue | index.js:77-79 | on a tree with no array ending in a hole, setting a path to the value it already reads gives the tree back unchanged |
| Edits.StepDetached | index.js:132-133 | returning `{}` from the reducer detaches the rest of the walk, and the root keeps what it had |
| Edits.StepInto | index.js:85-87 | storing the cloned child at `acc[key]` and going on in it is, as seen from the root, the walk into that child |
| Edits.LastStep | index.js:167-171 | the statements at the last key compute `Finish`: for set, delete and merge, including merge's write of `{}` over a primitive |
| Edits.Walk | index.js:71-88 | the reduce loop over the keys, with its in-place writes into the clone, returns exactly `EditTree` (the same loop serves `delete` and `merge`) |
| Updater.Updated | index.js:63-182 | the path error exactly for a missing or empty path; the value error exactly for a valid path with a non-object merge value; a "does not exist" error quotes a non-empty prefix of the path's keys; a path of separators only returns the plain clone |
| Updater.EditSucceedsIff | index.js:71-74 | an edit succeeds if and only if the path has no keys or reads something in `obj` |
| Updater.EditFailsAtFirstMissingKey | index.js:72-73 | a failed edit names the shortest non-empty prefix of the keys that reads nothing in `obj`; every shorter prefix reads something |
| Updater.EditParent | index.js:76-80 | after an edit, the container of the last key is the copy of the old one with the last step applied |
| Updater.EditFrame | index.js:63-91 | after an edit, every path that leaves the edited path reads a copy of what it read in `obj` |
| Updater.ReadAfterEdit | index.js:71-88 | after an edit, the path reads what the last step left at the last key of the copied container |
| Updater.SetThenGet | index.js:76-80 | after `set`, the path reads exactly the value set |
| Updater.SetThenGetBelow | index.js:80 | after `set`, any path below the edited one reads what the value set reads |
| Updater.SetSameValue | index.js:77-79 | on a root with no array ending in a hole, setting a path to what it reads gives the root back |
| Updater.SetSamePrimitive | index.js:77-79 | setting a path to the primitive it holds skips the write, and the result is the plain clone |
| Updater.DeleteThenGet | index.js:129-130 | after `delete`, the path reads nothing; its container keeps every other entry, an object loses only that key, and an array keeps its length |
| Updater.MergeThenGet | index.js:167-171 | after `merge`, the path holds an object with the keys of the old target and of the value; the value's entries win, and the rest are copies of the old target's |
| Updater.UpdatedErrors | index.js:150-165 | the path error is thrown exactly for a missing or empty path; the value error exactly for a valid path with a non-object merge value; a "does not exist" error only when the path and the quoted prefix read nothing |
| Updater.SetCreatesNothing | index.js:71-74 | `set('a.b.c', 1)` on `{}` throws for `a` instead of creating containers |
| Updater.SegmentsOfListPath | index.js:52-53 | `list[0]` parses to the keys `list` and `0` |
| Updater.SetDotIgnoresValue | index.js:52-53 | `set('.', v)` returns a copy of the root and drops `v` |
| Updater.DeleteLeavesHole | index.js:129-130 | `delete('list[0]')` on `{list: [{v: 1}, {v: 2}]}` leaves a hole at index 0 and `{v: 2}` at index 1 |
| Updater.ImmutableUpdater.constructor | index.js:9-11 | the new updater holds the given root |
| Updater.ImmutableUpdater.Get | index.js:99-108 | `get` throws only for a missing or empty path, and otherwise returns what the reduce reads from `obj` |
| Updater.ImmutableUpdater.Set | index.js:63-91 | `set` succeeds, fails and builds its new root exactly as `Updated` says for `SetTo`, and returns a new instance |
| Updater.ImmutableUpdater.Delete | index.js:116-141 | `delete` succeeds, fails and builds its new root exactly as `Updated` says for `DeleteKey`, and returns a new instance |
| Updater.ImmutableUpdater.Merge | index.js:150-182 | `merge` checks the path, then the value, then walks, exactly as `Updated` says for `MergeIn`, and returns a new instance |

## Left out

- DeepClone.Clone: does not model two own keys of a plain object that `cloneDeep` mishandles
  (index.js:34-35). An own key named `hasOwnProperty` makes `value.hasOwnProperty(key)` throw a
  `TypeError`, so every `set`, `delete` and `merge` on a root holding one anywhere throws, where
  `Clone` and `Updated` succeed. An own `__proto__` key, as `JSON.parse` can produce, is not
  copied, because `clone['__proto__'] = …` sets the prototype instead; `Clone` copies it.
- Inherited properties are not modelled. The model has no prototype, so names such as `toString`,
  `constructor` or `__proto__` read nothing on objects. An array's `length` reads nothing too, so
  in the source a path through those names behaves differently.
- String indexing is left out. In the source, `'abc'[0]` and the properties of numbers and
  booleans are read from a truthy primitive. Here a primitive has no entries. Writing into a
  primitive, which is a `TypeError` in strict mode, is left out as well.
- Arrays have no extra named properties. Only index keys are modelled, and indices have no
  2^32 - 1 bound.
- Values are plain data only. Class instances, functions, `Date`, `Map` and cyclic values are
  left out. Numbers are integers, with no `NaN`, `-0` or fractions. `===` is value equality on
  primitives.
- `LooksNumeric` recognises only strings of decimal digits, where the source uses `isNaN(next)`.
  The replacement container is empty either way and the walk fails at the next key, so the
  difference cannot be observed (`EmptyFor`, `EditInEmpty`).
- Key order is left out. Objects are maps, so the enumeration order of `for…in` and of the spread
  is not modelled.
- Object identity is left out. Results are values: the model does not say that `get` returns the
  stored object itself, that `set` stores the caller's object by reference, or that no object is
  shared between `obj` and the result.
- That an edit never writes `this.obj` holds by construction rather than by a lemma: `obj` is a
  `const` field, and no method of the class modifies anything.
- The `export default` line (index.js:185) is module plumbing and is not modelled.
