# nextbg wallpaper index, modelled in Dafny

nextbg.py cycles the desktop background through a list of image paths kept in
a JSON config. The list (`images`) and the position of the current wallpaper
(`offset`) form a small state machine that one run of the script changes in
place:

- an optional directory scan replaces the list, or extends it when
  `additive` is set (the `--add` branch at nextbg.py:93, which the command
  line cannot reach), and then puts it through `sorted(set(...))`; the offset
  is left alone;
- then exactly one mode runs: delete the current image (`-X`), else pick a
  random image (`-R`), else step by +1 (`-n`, the default), -1 (`-p`) or 0
  (`-s`) with wrap-around;
- the chosen image, if any, is handed to the background setter.

The project has four modules:

- `StringOrder` (string_order.dfy): Python's `<` on strings (code-point
  lexicographic order, a prefix first), proved a strict total order.
- `SortedSets` (sorted_sets.dfy): `sorted(set(xs))` as `SortedUnique`, proved
  strictly increasing with exactly the paths of `xs`, and proved to be the only
  such list.
- `IndexState` (index_state.dfy): the operations as functions on
  `Index(images, offset)` values, each returning the new index with the
  operation's result or its exception (`Result`), and the lemmas about them.
- `NextBg` (nextbg.dfy): class `Config`, the `cfg` dict, whose methods update
  `images` and `offset` in place step by step as the script does; each is
  proved to end in the state, and to return, what the matching `IndexState`
  function says.

Python's `%` with a positive divisor has the same result as Dafny's Euclidean
`%`, so `(offset + delta) % len(images)` is modelled directly. The offset is an
unbounded integer. A hand-edited config can hold any value, and a scan can
shrink the list under it. For deletion the model keeps Python's list indexing:
an offset in `[-n, n)` is accepted, a negative one counts from the end, and any
other offset raises `IndexError` before anything changes.

Behaviour of nextbg.py the model keeps:

- deleting the only image is not refused; the list becomes empty and no image
  is applied;
- after a deletion at an offset in `[0, n)` the current image is the one that
  followed the deleted one, wrapping to the first; at offset -1 it is the one
  before the deleted one;
- deduplication re-sorts the list, rather than keeping the first occurrence in
  order;
- a scan neither resets nor clamps the offset.

## Model

| member | source | states |
|---|---|---|
| `IndexState.Wrap` | nextbg.py:160 | the new offset lies in `[0, n)` and is congruent to `offset + delta` modulo `n`, for any stored offset, negative included |
| `IndexState.Incremented` | nextbg.py:156-162 | on an empty list it raises and changes nothing; otherwise the list is unchanged, the offset is in range and congruent to `offset + delta`, and the returned file is the entry at the new offset |
| `IndexState.Randomized` | nextbg.py:165-171 | on an empty list it raises and changes nothing; otherwise the list is unchanged, the offset is the drawn index in `[0, len - 1]`, and the returned file is the entry there |
| `IndexState.Deleted` | nextbg.py:174-191 | empty list: raises, nothing changes; offset outside `[-n, n)`: `IndexError`, nothing changes; otherwise the list loses exactly the entry at the offset (one shorter, same multiset less that entry), `None` is returned exactly when the list became empty (offset kept), and otherwise the new offset is the old one modulo the new length (so in range) and the returned file is the entry there |
| `IndexState.Rescanned` | nextbg.py:116-125 | after a scan the list is strictly increasing with no path twice; its paths are the scanned ones, or the old ones plus the scanned ones when additive; the offset is unchanged |
| `IndexState.Dispatched` | nextbg.py:129-136 | a failing mode leaves the index as it was; a returned image is the entry at the new offset, which is in range; `None` comes back exactly when `-X` removes the last remaining image |
| `IndexState.Invoked` | nextbg.py:116-139 | a failing run leaves the scanned index; a returned image is the current entry, in range; after a scan a successful mode step leaves the list sorted and duplicate-free |
| `IndexState.IncrementsCompose` | nextbg.py:160 | stepping by `a` then by `b` lands exactly where one step by `a + b` does |
| `IndexState.PrevWrapsToLast` | nextbg.py:160 | `-p` at offset 0 goes to offset `len - 1` and returns the last image |
| `IndexState.SameKeepsOffset` | nextbg.py:160 | `-s` on an in-range offset keeps the index as it is and returns the current image |
| `IndexState.PrevUndoesNext` | nextbg.py:160 | `-n` followed by `-p` returns to the same in-range offset |
| `IndexState.NextTimesOffset` | nextbg.py:160 | after `k >= 1` runs with `-n` the list is unchanged and the offset is `(offset + k) mod len` |
| `IndexState.NextCycles` | nextbg.py:160 | `len` runs with `-n` from an in-range offset come back to the starting index |
| `IndexState.DeleteRemovesCurrent` | nextbg.py:178-184 | the list after `-X` is the old list with exactly the entry at the offset taken out, the others in their order |
| `IndexState.DeleteMovesToFollower` | nextbg.py:184-188 | deleting at an in-range offset of a list of two or more returns the image that followed the deleted one, wrapping to the first; the new offset is the old one, or 0 after deleting the last entry |
| `IndexState.DeleteAtMinusOneMovesBack` | nextbg.py:178-188 | at offset -1 the last image is popped and the offset becomes the new last position, so the image before the deleted one is applied |
| `IndexState.DeleteOnlyImage` | nextbg.py:186-191 | deleting the only image empties the list, keeps the offset and returns `None` |
| `IndexState.RescanDependsOnPathsOnly` | nextbg.py:125 | the scan result depends only on the set of scanned paths, not on their order or repetitions |
| `IndexState.RescanAdditiveIdempotent` | nextbg.py:119-125 | adding the same scan a second time changes nothing |
| `IndexState.RescanOfSortedKeepsOrder` | nextbg.py:123-125 | a replacing scan of an already sorted, duplicate-free list yields exactly that list |
| `IndexState.DeleteTakesPrecedence` | nextbg.py:129-130 | with `-X` the mode step is the deletion, whatever `-R` and the step say |
| `IndexState.RandomIgnoresStep` | nextbg.py:132-133 | with `-R` and no `-X` the step given by `-n`, `-p` or `-s` has no effect |
| `IndexState.DefaultIsNext` | nextbg.py:76 | with no mode flag the offset becomes `(offset + 1) mod len` |
| `IndexState.FreshConfigHasNoImages` | nextbg.py:19-24 | on the default config every mode raises for want of images and changes nothing |
| `SortedSets.SortedUnique` | nextbg.py:125 | `sorted(set(xs))` is strictly increasing and holds exactly the paths of `xs` |
| `SortedSets.SortedDeterminedByElems` | nextbg.py:125 | two strictly increasing lists with the same paths are equal, so the sorted set is unique |
| `SortedSets.SortedUniqueIdempotent` | nextbg.py:125 | normalising an already normalised list changes nothing |
| `SortedSets.SortedHasNoDuplicates` | nextbg.py:125 | a strictly increasing list holds no path twice |
| `SortedSets.RemoveKeepsSorted` | nextbg.py:184 | popping any entry of a sorted, duplicate-free list leaves it sorted and duplicate-free |
| `StringOrder.BelowTransitive` | nextbg.py:125 | Python's string order is transitive |
| `StringOrder.BelowTotal` | nextbg.py:125 | any two distinct strings are ordered one way or the other |
| `StringOrder.BelowIrreflexive` | nextbg.py:125 | no string is below itself |
| `NextBg.Config.constructor` | nextbg.py:19-24 | the default config has no images and offset 0 |
| `NextBg.Config.IncrementImage` | nextbg.py:156-162 | updates the offset in place as `Incremented` says; the list is unchanged; raises on an empty list without changing the offset |
| `NextBg.Config.RandomImage` | nextbg.py:165-171 | sets the offset to the drawn index in place as `Randomized` says and returns the entry there |
| `NextBg.Config.DeleteCurrentImage` | nextbg.py:174-191 | pops the current entry in place and re-reads the current image through a step of 0, as `Deleted` says |
| `NextBg.Config.MergeScan` | nextbg.py:116-125 | replaces or extends the list and re-sorts it without duplicates as `Rescanned` says; the offset is unchanged |
| `NextBg.Config.Dispatch` | nextbg.py:129-136 | runs delete, else random, else increment, as `Dispatched` says |
| `NextBg.Config.Run` | nextbg.py:116-139 | the optional scan merge followed by the mode step, as `Invoked` says |

## Left out

- Loading and saving the JSON config (`load_config`, `save_config`), and the creation of the default file, are file I/O. The model starts from `DEFAULT_CONFIG`'s list and offset (`Config.constructor`) or from any given index.
- That `save_config` is only reached when no exception was raised, so a failed run persists nothing, is not modelled: persistence is left out.
- `apply_image` formats a shell command and runs it with `os.system`. The model stops at the image it would hand to it; the failure of that command is not modelled.
- `NextBg.Config.DeleteCurrentImage`: the `os.remove` of the image file is left out. A failure to remove it would raise before the list is popped, and the model does not capture that case.
- `NextBg.Config.RandomImage`: `random.randint` is replaced by the drawn index, given as a parameter in range. Its distribution is not modelled.
- `scan_dir` and `full_path`, the directory walk, `fnmatch` filtering and path expansion, are left out. The scanned list is an arbitrary input sequence of paths.
- Option parsing with `getopt`, the help text and `sys.exit` are left out. The flags reach the model as plain parameters: `additive` for `-a`/`--add`, `deleteFlag`, `randomFlag` and `step`. `-a` cannot be passed on the command line, because it is missing from the option lists, but the model still lets `additive` be chosen.
- Python compares strings by code point; the model compares `char` values, the same order on Unicode scalar values. Paths that Python holds with lone surrogates (file-name bytes that are not valid UTF-8, as `os.listdir` decodes them) cannot be represented, since a Dafny `char` cannot hold a lone surrogate.
