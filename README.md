# Scene loader registry

This project models the format registry built by the default export of
`src/scene_loader.js`. The registry is an object with:

- a `'2d'` table and a `'3d'` table, each mapping a lower-case file extension
  to a loader function;
- `getExtension(src)`, which takes the text after the last dot of a source
  name and lower-cases it;
- `load(src)`, which looks the extension up in the 3d table first, then in the
  2d table, and resolves to `null` when neither has a truthy entry, own or
  inherited from `Object.prototype` (see "## Findings" for the inherited case);
- `availableLoaders()`, which lists the own keys of both tables.

The factory merges the caller's `extraLoaders` into the 3d table with
`Object.assign`.

Layout:

- `wrappers.dfy` has the `Option` datatype.
- `extension.dfy` covers extension inference: ASCII `toLowerCase`,
  `split('.')`, its inverse `join('.')`, `pop()`, and `getExtension`.
- `tables.dfy` models a plain JavaScript object used as a dictionary (`Table`):
  - it holds its own keys in insertion order plus a map from key to value;
  - `Put` is a property write (`obj[k] = v`);
  - `Assign` is `Object.assign(obj, src)`, written as `AssignPrefix`, the
    state after copying the first `n` own keys of `src`.
- `scene_loader.dfy` holds the rest:
  - the loader identifiers and the two built-in tables;
  - the `Registry` class, whose `threeD` field is changed in place by `Merge`;
  - dispatch and enumeration.

A table value is `Option<Loader>`. `None` stands for a falsy value such as
`undefined`, which `Object.assign` can copy from `extraLoaders`. `load`
treats a falsy value like a missing key. What a loader does once it is called
is not modelled. `Load` is the choice of loader that `load` would invoke.

## Model

| member | source | states |
|---|---|---|
| Extension.Lower | src/scene_loader.js:14 | `toLowerCase` restricted to ASCII: the length is kept, each of `A`..`Z` moves to its lower-case letter, every other character is unchanged, and no upper-case letter is left |
| Extension.Split | src/scene_loader.js:14 | `split('.')` always yields at least one segment, so `pop()` always has a string to return |
| Extension.SegmentsDotFree | src/scene_loader.js:14 | no segment produced by `split('.')` contains a dot |
| Extension.SplitJoin | src/scene_loader.js:14 | joining the segments with dots gives back the original string |
| Extension.JoinSplit | src/scene_loader.js:14 | splitting the dot-join of any non-empty list of dot-free segments gives back that list |
| Extension.SplitDotFreePrefix | src/scene_loader.js:14 | putting a dot-free prefix in front of a string only extends the first segment |
| Extension.SplitStepDot | src/scene_loader.js:14 | a leading dot adds an empty first segment and leaves the last segment unchanged |
| Extension.SplitStepChar | src/scene_loader.js:14 | a leading non-dot keeps the segment count the same; it extends the last segment only when there is a single segment |
| Extension.LastSegment | src/scene_loader.js:14 | the popped segment is a suffix of the source; it is either the whole source (exactly when there is one segment) or it starts right after a dot |
| Extension.LastSegmentUnique | src/scene_loader.js:14 | any dot-free suffix that starts at position 0 or right after a dot is the popped segment |
| Extension.LowerDrop | src/scene_loader.js:14 | lower-casing commutes with taking a suffix |
| Extension.LowerOfLowerCase | src/scene_loader.js:14 | lower-casing a string without upper-case letters changes nothing |
| Extension.Last | src/scene_loader.js:14 | `pop()` on the array from `split`: the last segment, which exists because `Split` never yields an empty array |
| Extension.GetExtension | src/scene_loader.js:13-15 | the inferred extension contains no dot and no upper-case letter |
| Extension.ExtensionIsLastSegment | src/scene_loader.js:14 | the extension is the lower-cased suffix after the last dot, and it contains no dot; it is the whole source lower-cased exactly when the source has no dot |
| Extension.ExtensionIdempotent | src/scene_loader.js:14 | inferring the extension of an extension gives it back unchanged |
| Extension.ExtensionOfName | src/scene_loader.js:14 | for every stem, `stem + "." + e` with a dot-free `e` has extension `e` lower-cased |
| Extension.ExtensionOfLower | src/scene_loader.js:14 | lower-casing the source first does not change its extension |
| Extension.ExtensionCaseInsensitive | src/scene_loader.js:14 | two sources that differ only in ASCII letter case have the same extension |
| Tables.Table.Get | src/scene_loader.js:18-19 | an own-property read: the value stored under the key, and `None` (`undefined`) for a key the object does not have |
| Tables.Table.Put | src/scene_loader.js:171 | a property write stores the value under the key; an existing key keeps its place in the key order and a new key is appended |
| Tables.Table.AssignPrefix | src/scene_loader.js:171 | `Object.assign` stopped after the first `n` own keys of the source: those keys written one at a time with `Put`, in the source's key order |
| Tables.Table.Assign | src/scene_loader.js:171 | `Object.assign(target, src)`: every own key of the source written into the target, in the source's key order |
| Tables.PutValid | src/scene_loader.js:171 | a property write keeps the key list duplicate-free and in step with the stored keys |
| Tables.NewKeysMembers | src/scene_loader.js:171 | the keys appended by a merge are exactly the source keys the target did not already have |
| Tables.NewKeysSnoc | src/scene_loader.js:171 | the appended-keys list grows by one source key at a time, in the source's order |
| Tables.AssignPrefixValid | src/scene_loader.js:171 | copying any prefix of the source's own keys keeps the target well formed |
| Tables.AssignPrefixHas | src/scene_loader.js:171 | after copying `n` keys, a key is present exactly when it was present before or is among the first `n` source keys |
| Tables.AssignPrefixGet | src/scene_loader.js:171 | after copying `n` keys, a key among them reads as the source has it; every other key reads as before |
| Tables.AssignPrefixKeys | src/scene_loader.js:171 | after copying `n` keys, the key order is the old order followed by those of the first `n` source keys that were new, in source order |
| Tables.AssignStepKeys | src/scene_loader.js:171 | copying one more key appends it to the key order exactly when the target did not have it at the start |
| Tables.LastNotInPrefix | src/scene_loader.js:171 | a source key does not occur earlier in the source's own key list |
| Tables.AssignValid | src/scene_loader.js:171 | `Object.assign` keeps the target well formed, and its key set becomes the union of both key sets |
| Tables.AssignGet | src/scene_loader.js:171 | after `Object.assign`, every source key reads as in the source, including a falsy value, and every other key keeps its old value |
| Tables.AssignKeys | src/scene_loader.js:171 | after `Object.assign`, keys already present keep their positions and the new source keys follow in source order |
| SceneLoader.Loader | src/scene_loader.js:30-168 | one opaque identifier per built-in loader function (`dxf`, `svg`, `3ds`, `assimp`, `fbx`, `gcode`, `gltf`, `obj`, `stl`, `sldprt`), plus `Supplied` for a loader passed in `extraLoaders` |
| SceneLoader.BUILT_IN_2D | src/scene_loader.js:29-71 | the two built-in 2d keys in source order, `dxf` then `svg`, each mapped to its own loader |
| SceneLoader.BUILT_IN_3D | src/scene_loader.js:72-169 | the eight built-in 3d keys in source order (`3ds`, `assimp`, `fbx`, `gcode`, `gltf`, `obj`, `stl`, `sldprt`), each mapped to its own loader, `sldprt` to the SolidWorks loader |
| SceneLoader.BuiltInTablesWellFormed | src/scene_loader.js:29-169 | both built-in tables have distinct keys, and a key holds a truthy loader exactly when it is one of the listed keys |
| SceneLoader.Registry.constructor | src/scene_loader.js:11-173 | the factory returns well-formed tables: the built-in 2d table, and the built-in 3d table merged with `extraLoaders` when it is given |
| SceneLoader.Registry.Merge | src/scene_loader.js:171 | the in-place merge loop leaves the 3d table equal to `Object.assign` of the old 3d table and the extra loaders; the tables stay well formed and the 2d table is untouched |
| SceneLoader.Registry.AvailableLoaders | src/scene_loader.js:23-28 | each list has no duplicates, holds exactly the own keys of its table, and is in that table's insertion order |
| SceneLoader.GetInherited | src/scene_loader.js:18-19 | a property read with `[[Get]]`: an own entry (truthy or falsy) first, else the `Object.prototype` member of that name, else falsy |
| SceneLoader.Registry.Load | src/scene_loader.js:16-22 | `load` with own-property lookup: the 3d own entry of the extension if truthy, else the 2d own entry; `None` is `null` |
| SceneLoader.Registry.LoadAsWritten | src/scene_loader.js:16-22 | `load` as written: the 3d read with `[[Get]]` if truthy, else the 2d read with `[[Get]]`, so an inherited `Object.prototype` member counts as a hit |
| SceneLoader.LoadPrefers3d | src/scene_loader.js:16-22 | a truthy 3d entry wins even when the 2d table has the same extension |
| SceneLoader.LoadFallsBackTo2d | src/scene_loader.js:16-22 | without a truthy 3d entry, the 2d table decides |
| SceneLoader.LoadNull | src/scene_loader.js:16-22 | `load` resolves to `null` exactly when neither table has a truthy entry for the extension |
| SceneLoader.LoadCaseInsensitive | src/scene_loader.js:13-22 | two sources that differ only in letter case reach the same loader |
| SceneLoader.LoadOfNamedFile | src/scene_loader.js:13-22 | `load(stem + "." + name)` looks up `name` lower-cased, 3d first, for every stem |
| SceneLoader.LoadAfterMerge | src/scene_loader.js:16-22 | after the factory merge, a truthy caller entry is the loader invoked; a falsy caller entry hides the built-in 3d loader and falls back to 2d; other extensions dispatch as with the built-in tables |
| SceneLoader.AvailableAfterMerge | src/scene_loader.js:23-28 | after the factory merge, the 2d list is `dxf, svg`; the 3d list is the eight built-in keys in source order, then the caller's new keys in the caller's order |
| SceneLoader.DefaultDispatch | src/scene_loader.js:72-169 | with the built-in tables, for every stem, `*.xyz` resolves to `null` and `*.OBJ` reaches the OBJ loader |
| SceneLoader.ReachableMembers | src/scene_loader.js:14 | of the `Object.prototype` members, only `constructor` and `__proto__` can be a (lower-case) extension |
| SceneLoader.AsWrittenAgreesElsewhere | src/scene_loader.js:18-20 | for every extension other than `constructor` and `__proto__`, the prototype-walking lookup as written agrees with own-property lookup |
| SceneLoader.PrototypeLookupFinding | src/scene_loader.js:18-21 | for every stem, when `constructor` or `__proto__` is not an own key of either table, `load(stem + "." + name)` as written reaches the inherited `Object.prototype` member, which `load` then calls with `src`, where own-property lookup resolves to `null` |
| SceneLoader.BuiltInPrototypeFinding | src/scene_loader.js:18-21 | with the built-in tables, for every stem, `.constructor` and `.__proto__` reach inherited members as written and resolve to `null` with own-property lookup |
| SceneLoader.BuiltInsLackPrototypeNames | src/scene_loader.js:29-169 | neither built-in table has `constructor` or `__proto__` as an own key |

## Left out

- The bodies of the format adapters (src/scene_loader.js:30-167) are left out. They are Promise wrappers around three.js decoders. A loader is an opaque identifier here.
- The SVG scaling and offset constants are left out: they are floating-point transforms on three.js objects.
- src/solidworks.js is not part of this model: it is an HTTP request plus typed-array geometry construction.
- src/cleanup.js is not part of this model: it detaches every child from its parent and calls `dispose()` on each mesh's geometry, material and texture maps, which are GPU resources.
- src/helpers.js is not part of this model: it is canvas and sprite rendering with floating-point positions.
- Async behaviour is left out: the Promise returned by `load`, the `import()` calls of the dxf and fbx adapters (the fbx adapter does not await its import, so as written it always rejects), and the progress and error callbacks. `Load` is the choice of the loader that would be called with `src`.
- Extension.Lower: folds only ASCII letters, not the full Unicode `toLowerCase`.
- SceneLoader.Registry.AvailableLoaders, Tables.Table.Put, Tables.AssignKeys, Tables.AssignPrefixKeys, Tables.AssignStepKeys, SceneLoader.AvailableAfterMerge: keys are kept in plain insertion order. JavaScript lists integer-like keys such as `"3"` first, in ascending numeric order, so `extraLoaders = {"3": f}` would list `"3"` before `"3ds"`; that case is not modelled.
- SceneLoader.Registry.Merge: an own key `"__proto__"` in `extraLoaders` would go through the prototype setter instead of becoming a 3d entry; it is modelled as an ordinary key.
- A truthy value in a table that is not a function is not modelled: a table value is either a loader or falsy.
- `extraLoaders` is modelled as an `Option` of a table. `None` stands for `undefined` or `null`, which `Object.assign` skips. Non-object values such as strings are not modelled.
- The model copies only string keys of `extraLoaders`. `Object.assign` also copies own enumerable Symbol keys, but they cannot affect the registry's behaviour: `getExtension` returns a string, so `load` never reads a Symbol key, and `Object.keys` never lists Symbol keys.

## Findings

| source | as written | input that shows it | evidently intended | confidence | as-written member | corrected member |
|---|---|---|---|---|---|---|
| src/scene_loader.js:18-20 | `this['3d'][extension]` and `this['2d'][extension]` are ordinary property reads, so they also find members inherited from `Object.prototype`. For `x.constructor`, `load` calls the global `Object` function with `src`. For `x.__proto__`, it reads an object and calling it rejects with a `TypeError`. | `"model.constructor"` with the built-in tables | an extension that no table has as an own key resolves to `null` | high, not executed | SceneLoader.BuiltInPrototypeFinding | SceneLoader.LoadNull |
