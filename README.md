# Bookmark store of coc-bookmark, modelled in Dafny

coc-bookmark is an editor extension. Its bookmarks are kept by the class `DB` (`src/util/db.ts`) in a single JSON file. The file holds an array of `[path, bookmarks]` pairs. Each bookmark is a record with a line number `lnum` and an optional `annotation`. `DB` has four operations:

- `load` reads the file into an insertion-ordered `Map`. It then deletes every path that is not a regular file on disk. It never writes.
- `add(data, path)` loads. If the loaded map holds exactly `maxsize` paths, it deletes the first one. It then drops the bookmarks of `path` on `data.lnum`, appends `data` and writes the whole map.
- `delete(path, lnum?)` loads. If `path` is present, it removes that path's bookmarks on `lnum`, or the whole path when no `lnum` is given. A path whose list becomes empty is deleted. It then writes the whole map. If `path` is absent it writes nothing.
- `clear` writes an empty array without loading.

The model has five files:

- `options.dfy`: the `Option` type. It stands for JavaScript's `undefined`.
- `ordered_map.dfy` (module `OrderedMap`): a JavaScript `Map` as a sequence of key/value pairs. It has `Get`, `Set` (keeps a present key in place, appends a new one), `Remove`, and `FromPairs` (the `new Map(pairs)` constructor, so a repeated key keeps its first position and takes its last value).
- `bookmark.dfy` (module `Bookmark`): the bookmark record and the filter by line.
- `store.dfy` (module `Store`): a function for what each operation computes from the map it loaded (`Loaded`, `Added`, `Deleted`), with lemmas for their properties.
- `db.dfy` (module `Db`): the class `DB`. Its field `disk` is the backing file. `None` means the file is missing or not a regular file; otherwise it holds the parsed pairs. Its field `isFile` is the set of paths for which `statAsync(p).isFile()` holds. The const `maxsize` is the capacity. `Load` deletes non-files from the parsed map inside a loop, as the source does. `Add` and `Delete` change the loaded copy and then assign `disk`; their contracts say that `disk` ends up equal to what `Added`/`Deleted` compute, or unchanged. `Clear` loads nothing and only assigns `disk`. All three also say that a backing file in the shape the store writes stays in that shape. That shape is `Store.WellFormed`: no repeated path, no empty list, no two bookmarks of one path on one line.

Some behaviour of the code that a reader might not expect:

- Eviction happens whenever the loaded map holds exactly `maxsize` paths, even when `path` is already present (`src/util/db.ts:33-34`). The path being added may itself be the one evicted; its old bookmarks are then lost.
- `delete(path, n)` on a present path rewrites the file even when no bookmark is on line `n` (`src/util/db.ts:48-60`, lemma `Store.DeleteMissingLine`). What it writes is the pruned map `load` produced, so the call is not a no-op.
- `delete(path)` of a file that no longer exists never removes it from the backing file: `load` has already dropped that path, so `delete` finds nothing and writes nothing (`Store.DeleteVanishedPath`, `Store.PruningExample`). A stale path leaves the file only when some other write persists the pruned map.
- With `maxsize == 0` and an empty loaded map, `add` evaluates `[...items][0][0]` on an empty array. This throws before anything is written. `Db.DB.Add` returns `ok == false` in that case and leaves `disk` unchanged.
- The keys are used exactly as the caller passes them. `db.ts` does no path encoding.
- Writing is a plain overwrite, with no temporary file and rename.

## Model

| member | source | states |
|---|---|---|
| `OrderedMap.Keys` | src/util/db.ts:21 | `map.keys()`: one key per entry, the key of entry `i` at position `i` |
| `Options.Option.GetOr` | src/util/db.ts:37 | the logical-or fallback on `items.get(path)`: the stored value when there is one, otherwise the default `[]`; a stored list is never falsy in JavaScript, so the fallback is taken only for `undefined` |
| `OrderedMap.Get` | src/util/db.ts:37 | `map.get(k)`: absent exactly when `k` is not a key; in a map without repeats, the value stored with `k` |
| `OrderedMap.Set` | src/util/db.ts:40 | `map.set(k, v)`: keys keep their order and a new key goes last; `k` now maps to `v`; every other key maps to what it did |
| `OrderedMap.SetNew` | src/util/db.ts:40 | setting a key that is not present appends exactly the entry `(k, v)` after all the others |
| `OrderedMap.SetDistinct` | src/util/db.ts:40 | `set` never creates a repeated key |
| `OrderedMap.Remove` | src/util/db.ts:24 | `map.delete(k)`: `k` is gone; every other key maps to what it did; deleting an absent key changes nothing |
| `OrderedMap.RemoveAt` | src/util/db.ts:34 | in a map without repeats, deleting the key at position `i` cuts out exactly that entry and leaves the rest in order |
| `OrderedMap.FromPairs` | src/util/db.ts:20 | `new Map(pairs)`, the pairs set one after the other: never longer than the pairs (the repeated-key behaviour is stated by the next three lemmas) |
| `OrderedMap.FromPairsLastValue` | src/util/db.ts:20 | a key maps to the value of its last pair |
| `OrderedMap.FromPairsPrefix` | src/util/db.ts:20 | the constructor only appends keys: the map built from a prefix of the pairs has a prefix of the keys |
| `OrderedMap.FromPairsFirstPosition` | src/util/db.ts:20 | a key sits where its first pair put it, right after the keys of the earlier pairs, and keeps that place |
| `OrderedMap.FromPairsKeys` | src/util/db.ts:20 | `new Map(pairs)` has exactly the keys that occur in the pairs |
| `OrderedMap.FromPairsDistinct` | src/util/db.ts:20 | `new Map(pairs)` never holds a repeated key, whatever the pairs |
| `OrderedMap.FromDistinctPairs` | src/util/db.ts:20 | for pairs without a repeated key, `new Map(pairs)` iterates them unchanged and in order |
| `Bookmark.WithoutLine` | src/util/db.ts:50 | `filter(b => b.lnum != lnum)`: no record on `lnum` is left; a record is kept exactly when it was there and is on another line; nothing changes when no record is on `lnum` |
| `Bookmark.WithoutLineAppend` | src/util/db.ts:38 | the filter works entry by entry and keeps order: filtering a concatenation is the concatenation of the filtered parts |
| `Bookmark.WithoutLineSingle` | src/util/db.ts:38 | a single record survives the filter exactly when it is on another line |
| `Bookmark.WithoutLineUnique` | src/util/db.ts:38 | the filter keeps the line numbers of a list unique |
| `Bookmark.ReplaceLineUnique` | src/util/db.ts:37-39 | filtering out `data`'s line and then pushing `data` keeps the line numbers of a list unique |
| `Bookmark.WithoutPresentLine` | src/util/db.ts:50 | in a list with unique lines, removing a present line removes exactly one record |
| `Store.SetKeepsWellFormed` | src/util/db.ts:40 | setting a non-empty list with unique lines keeps a well-formed store well formed |
| `Store.RemoveKeepsWellFormed` | src/util/db.ts:24 | deleting any path keeps a well-formed store well formed |
| `Store.Pruned` | src/util/db.ts:21-26 | what the deleting loop leaves: never longer than the map; every entry kept is an entry of the map whose path is a regular file |
| `Store.Loaded` | src/util/db.ts:16-28 | what `load` returns: the empty map when the backing file is missing or not a regular file; otherwise no more entries than the stored pairs, each on a regular file |
| `Store.PrunedAppend` | src/util/db.ts:21-26 | pruning a concatenation prunes each part |
| `Store.PruneStep` | src/util/db.ts:21-26 | one iteration of `load`'s loop, which deletes a non-file key while iterating: the visited prefix is pruned, the rest untouched, and no key repeats |
| `Store.PrunedKeys` | src/util/db.ts:21-26 | pruning keeps only paths that were present and are regular files |
| `Store.PrunedGet` | src/util/db.ts:21-26 | after pruning, a regular file keeps its list and any other path is absent |
| `Store.PrunedDistinct` | src/util/db.ts:21-26 | pruning a map without repeats leaves none |
| `Store.PrunedAll` | src/util/db.ts:21-26 | when every path is a regular file, pruning changes nothing |
| `Store.LoadKeepsRegularFiles` | src/util/db.ts:19-28 | `load` of a present file has no repeated path; it keeps exactly the regular files, each with its stored list; for stored pairs without repeats it is the stored sequence minus the non-files, in stored order |
| `Store.LoadAllFiles` | src/util/db.ts:19-28 | when every stored path is a regular file and none repeats, `load` returns the stored pairs |
| `Store.PrunedWellFormed` | src/util/db.ts:21-26 | pruning keeps a well-formed store well formed |
| `Store.LoadKeepsWellFormed` | src/util/db.ts:19-28 | `load` of a well-formed file gives a well-formed map |
| `Store.Evicted` | src/util/db.ts:33-35 | the map after `add`'s capacity check: at exactly `maxsize` paths the first path is gone and every other path keeps its list; below or above capacity the map is unchanged |
| `Store.Added` | src/util/db.ts:31-42 | `add` fails before writing exactly when `maxsize` is 0 and the loaded map is empty |
| `Store.EvictedFirst` | src/util/db.ts:33-35 | at capacity, eviction removes precisely the first path, whichever path is being added; below capacity it changes nothing |
| `Store.AddKeepsCapacity` | src/util/db.ts:33-40 | if the loaded map has at most `maxsize` paths, so does the written one |
| `Store.AddReplacesLine` | src/util/db.ts:37-40 | after `add`, `path`'s list ends with `data`; no earlier record is on `data.lnum`; the earlier ones are that path's loaded records on other lines, in order, or none if `path` was the evicted first path |
| `Store.AddLeavesOthers` | src/util/db.ts:33-41 | `add` leaves every path other than `path` and the evicted one with its list; the evicted path, if it is not `path`, is gone |
| `Store.AddNewPath` | src/util/db.ts:33-40 | `add` of a path the map does not hold writes the loaded map, minus its first path at capacity, with `(path, [data])` appended at the end |
| `Store.AddKeyOrder` | src/util/db.ts:34-40 | written path order: the loaded order, minus the first path at capacity, with a new `path` appended at the end and a present one left in place |
| `Store.AddKeepsWellFormed` | src/util/db.ts:31-42 | `add` keeps a well-formed store well formed |
| `Store.Deleted` | src/util/db.ts:45-62 | `delete` writes nothing exactly when `path` is not in the loaded map |
| `Store.DeleteLine` | src/util/db.ts:49-56 | `delete(path, n)`: `path` disappears exactly when all its records were on line `n`; otherwise it keeps its records on other lines, in order; its list is never empty and never holds line `n` |
| `Store.DeleteWholePath` | src/util/db.ts:57-59 | `delete(path)` without a line removes `path` whatever its list holds |
| `Store.DeleteVanishedPath` | src/util/db.ts:46-48 | `delete` of a path that is not a regular file never writes, because `load` has already dropped it |
| `Store.DeleteLeavesOthers` | src/util/db.ts:47-60 | `delete` leaves every other path with its list |
| `Store.DeleteKeyOrder` | src/util/db.ts:49-59 | written path order: unchanged if `path` stays, otherwise `path` is cut out of its place; no path repeats |
| `Store.DeleteMissingLine` | src/util/db.ts:48-60 | deleting a line that a present, non-empty path has no record on rewrites the loaded map unchanged |
| `Store.DeleteKeepsWellFormed` | src/util/db.ts:45-62 | `delete` keeps a well-formed store well formed |
| `Store.EndToEndExample` | src/util/db.ts:31-60 | adding lines 10 and 20 to one file gives `[10, 20]` in order; deleting line 10 leaves `[20]`; deleting the file leaves the empty map |
| `Store.PruningExample` | src/util/db.ts:16-48 | a stored path that is not a regular file is dropped by `load`, and `delete` of it writes nothing |
| `Db.DB.constructor` | src/util/db.ts:8-14 | a store bound to its backing file and capacity |
| `Db.DB.Load` | src/util/db.ts:16-29 | returns `Loaded(disk, isFile)`: empty when the backing file is missing or not a regular file; no repeated path; each regular file with its parsed list and nothing else; the stored sequence minus the non-files when it has no repeats; `disk` is not modified |
| `Db.DB.Add` | src/util/db.ts:31-42 | fails exactly when `maxsize` is 0 and the loaded map is empty, leaving the file unchanged; otherwise writes `Added` of the loaded map; keeps a well-formed file well formed |
| `Db.DB.Delete` | src/util/db.ts:45-62 | writes `Deleted` of the loaded map when `path` is present, and leaves the file unchanged otherwise; keeps a well-formed file well formed |
| `Db.DB.Clear` | src/util/db.ts:64-66 | the file holds the empty array whatever it held, so the next `load` returns the empty map |

## Left out

- `src/lists/bookmark.ts`, the list view, is not part of this model. It is editor UI glue: rendering, jumping to a location, building list items. It also calls the store in ways that do not match its interface.
- Path encoding (`encode`/`decode`) lives in `src/commands`, which is not part of this model; `db.ts` does not call it.
- JSON text is not modelled. The backing file is its parsed array of pairs. Malformed JSON makes `load` throw in the source; that case is not modelled. Other shapes the source accepts are not modelled either: `null` (which `new Map` turns into an empty map), entries shorter or longer than a pair (which give an `undefined` key or value, or ignore the extra elements), and values that are not lists of bookmarks. A non-iterable value or an entry that is not an object throws; that is not modelled. The 2-space pretty-printing is not modelled.
- I/O failures are not modelled. `statAsync`, `readFile` and `writeFile` are abstracted to the `isFile` set and the `disk` field, and every write succeeds. The backing file's location (`path.join(directory, name + ".json")`) is not modelled either.
- `async`/`await` interleaving is not modelled. Each operation is one atomic step, so lost updates between concurrent calls cannot be expressed.
- A bookmark record has only `lnum` and `annotation`. The record type comes from `src/types`, which is not part of this model. `lnum` and `maxsize` are unbounded integers; JavaScript numbers that are fractional, `NaN` or infinite are not modelled. A `null` or absent `lnum` in `delete` are both `None`.
- Store.AddKeepsCapacity: requires the loaded map to hold at most `maxsize` paths. A store that already holds more (for example after `maxsize` was lowered) is never evicted from and keeps growing. The source does the same.
