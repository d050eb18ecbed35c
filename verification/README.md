# TurBoCB3K catalog scanner, modelled in Dafny

TurBoCB3K builds a PDF catalog from a directory tree of image assets. Its one
piece of logic is `TurBoCB3K.scan`. The scan walks the chosen directory
bottom-up. Each sub-directory is a *model*, and its name carries a tile format
such as `name_4x4`. The scan puts every model under a sanitized key in the
catalog `models[root_name]` and records there the paths of the model's pictures
and a size weight. The weight is 0.20 for a square tile format and 0.30 for a
rectangular one. Before rendering, `create_pdf` sorts the catalog's entries by
key.

The project has four modules:

- `Wrappers` (`wrappers.dfy`): `Option` and `Result`.
- `Strings` (`strings.dfy`): the Python built-ins the scan depends on.
  - `str.split`/`str.rsplit` without a limit (`Split`).
  - One-character `str.translate`/`str.replace` (`Replace`).
  - `str.endswith` (`EndsWith`).
  - `os.path.basename`, as the text after the last `/` (`Basename`).
  - `os.path.join` with POSIX rules (`PathJoin`).
  - The ordering of `str` that `sorted` uses (`LexLess`).
- `Catalog` (`catalog.dfy`): the pure rules.
  - `ScapeString` sanitizes a name.
  - `Classify` gives a file's picture kind.
  - `TileWeight` gives the weight, or the index error a badly named directory raises.
  - `BuildEntry` gives the entry one directory produces.
  - `ScanFrom` is the whole scan written as a fold over the walk. Lemmas about it cover error stops, last-write-wins, root-named directories and untouched keys.
  - `InsertByKey` and the uniqueness lemmas cover the key-sorted render list.
- `TBCB3K` (`scanner.dfy`): the class `TurBoCB3K`.
  - Its fields are `dir_path`, `root_path`, `root_name`, `file_tree`, `models` and `tile_format`.
  - `Scan` and `ScanModelDir` are the two nested loops of `scan`. They update `models` in place and are proved to compute `ScanFrom`.
  - `SortedModels` builds the list that is handed to the renderer.

The result of `os.walk(root, topdown=False)` is an input: a sequence of
`WalkStep(dirPath, subdirs, files)`. The scan raises `IndexError` in two places.
Both are modelled as values of `ScanError`:

- `MissingTileToken`: the directory name has no `_`, so there is no second token (line 99).
- `MissingTileHeight`: the second token has no `x` (lines 100 and 104).

`Scan` returns that error. Like the Python code, it keeps what it had already
written into the catalog before the failing directory.

Three consequences of the code at TBCB3K.py:99-109 are easy to miss, and the
model keeps them:

- The tile token is the second `_`-token from the left, because `rsplit('_')` without a limit splits at every `_`. So `my_model_4x4` fails: its tile token is `model`, which has no `x`.
- The key of `bar_4x6` is `bar-4x6`. Sanitisation only replaces underscores and never reorders the name.
- A tile token with more than one `x` does not fail. Only its first two pieces are compared, so `foo_4x4x9` is square.

## Model

| member | source | states |
|---|---|---|
| `Catalog.ScapeString` | TBCB3K.py:147-151 | the result has the same length, holds no `_`, has `-` wherever the input had `_`, and keeps every other character |
| `Catalog.ScapeStringIdempotent` | TBCB3K.py:147-151 | sanitizing twice is the same as sanitizing once |
| `Catalog.ScapeStringFixpoint` | TBCB3K.py:147-151 | a name is left unchanged if and only if it holds no `_` |
| `Catalog.ScapeStringCollides` | TBCB3K.py:109-111 | `a_b` and `a-b` get the same key `a-b`; `a_b_c` becomes `a-b-c` |
| `Catalog.Classify` | TBCB3K.py:116-120 | no contract of its own; its meaning is stated by `ClassifyCases` and `ClassifyOfStem` |
| `Catalog.ClassifyCases` | TBCB3K.py:115-120 | montage if and only if the name ends in `M.png`; model if and only if it ends in `.png` but not `M.png`; no kind if and only if it does not end in `.png` |
| `Catalog.ClassifyOfStem` | TBCB3K.py:116-120 | `stemM.png` is a montage; `stem.png` is a model image unless the stem ends in `M`, because the `M.png` test comes first |
| `Catalog.TileWeight` | TBCB3K.py:99-107 | a success is always one of the two weights, and a failure names the offending directory; `TileWeightErrors`, `TileWeightOfName` and `TileWeightOfPlainName` state when each happens |
| `Catalog.TileWeightErrors` | TBCB3K.py:99-107 | fails with `MissingTileToken` if and only if the name has no `_`; fails with `MissingTileHeight` if and only if the second `_`-token has no `x` |
| `Catalog.SecondToken` | TBCB3K.py:99 | the tile token of `<prefix>_<token><tail>` is `token` (the second token from the left) |
| `Catalog.TileWeightOfName` | TBCB3K.py:99-107 | for `<prefix>_<W>x<H>[_...]` the weight is the square weight if and only if W equals the first `x`-piece of H as text, and the rectangular weight otherwise; anything after a second `x` is ignored |
| `Catalog.TileWeightOfPlainName` | TBCB3K.py:99-107 | when H holds no `x`, the weight is the square weight if and only if W and H are the same text |
| `Catalog.TileWeightExamples` | TBCB3K.py:99-107 | `foo_4x4` is square; `bar_4x6` and `bar_04x4` are rectangular (the comparison is on text); `foo_4x4_v2` is square |
| `Catalog.TileWeightExtraPieceExamples` | TBCB3K.py:100-107 | `foo_4x4x9` is square and `foo_4x6x4` is rectangular: a second `x` does not fail, and only the first two pieces are compared |
| `Catalog.TileWeightNoSeparator` | TBCB3K.py:99-104 | a name whose second `_`-token has no `x` fails with `MissingTileHeight` |
| `Catalog.TileWeightErrorExamples` | TBCB3K.py:99-104 | `foo` fails for want of a second token; `my_model_4x4` fails because its tile token is `model` |
| `Catalog.BuildEntry` | TBCB3K.py:111-125 | the entry has `"size"` if and only if the directory has at least one file, and then `"size"` holds the directory's weight |
| `Catalog.LastOfKind` | TBCB3K.py:115-124 | the index of the last file of a given kind: that file has the kind and no later file has it |
| `Catalog.BuildEntryKinds` | TBCB3K.py:115-124 | the entry has a key for a kind if and only if some file has that kind, and the key holds the stored path of the last such file |
| `Catalog.StoredPath` | TBCB3K.py:124 | no contract of its own; its meaning is stated by `StoredPathClean` |
| `Catalog.StoredPathClean` | TBCB3K.py:124 | a stored path holds no backslash, has the length of the joined path, and agrees with it everywhere the joined path has no backslash |
| `Catalog.BuildEntryValues` | TBCB3K.py:124-125 | every non-`"size"` value is a path, and no stored path contains a backslash |
| `Catalog.ScanFrom` | TBCB3K.py:90-125 | the scan as a fold over the walk; no key already in the catalog is removed, and the tile weight left behind is the old one or one of the two weights; its other properties are the `Scan…` lemmas below |
| `Catalog.ScanSucceedsIff` | TBCB3K.py:90-107 | the scan ends without an index error if and only if every non-root directory has a well-formed name |
| `Catalog.ScanAppend` | TBCB3K.py:90-125 | scanning `w1 + w2` is scanning `w1` and then `w2`, unless `w1` already failed |
| `Catalog.ScanStopsAtFirstError` | TBCB3K.py:90-107 | at the first badly named directory the scan stops with that directory's error and keeps the catalog built before it |
| `Catalog.ScanLeavesOtherKeys` | TBCB3K.py:90-125 | a key that no model directory produces keeps its presence and its entry |
| `Catalog.ScanKeys` | TBCB3K.py:90-111 | after a successful scan, the keys are exactly the old keys plus the sanitized names of the model directories |
| `Catalog.ScanLastWins` | TBCB3K.py:109-111 | each key holds the fresh entry built by the last model directory with that key in walk order |
| `Catalog.ModelDirs` | TBCB3K.py:92-94 | a directory is kept if and only if it is in the walk and its basename is not the root's; the result is no longer than the walk |
| `Catalog.ModelDirsAppend` | TBCB3K.py:90-94 | filtering keeps walk order: the model directories of `w1 + w2` are those of `w1` followed by those of `w2` |
| `Catalog.ScanIgnoresRootNamed` | TBCB3K.py:92-94 | directories named like the root add nothing: scanning the walk equals scanning its model directories alone |
| `Catalog.ScanIgnoresOldTile` | TBCB3K.py:104-107 | the catalog and the error do not depend on the tile weight left over from an earlier scan |
| `Catalog.RescanIsStable` | TBCB3K.py:83-86 | scanning an unchanged walk a second time leaves every root's catalog as the first scan left it |
| `Catalog.InsertByKey` | TBCB3K.py:134 | inserting an item with a new key into a key-sorted list keeps the list sorted, adds exactly that item, and grows the list by one |
| `Catalog.SortedByKeyUnique` | TBCB3K.py:134 | two key-sorted lists with the same items are equal |
| `Catalog.RenderOrderDeterministic` | TBCB3K.py:134 | any two lists that list the same catalog in key order are equal, so the render order depends only on the catalog |
| `TBCB3K.TurBoCB3K.constructor` | TBCB3K.py:55-76 | every scan field starts unset, and `models` starts empty |
| `TBCB3K.TurBoCB3K.Scan` | TBCB3K.py:78-125 | root path, root name and walk are recorded; the root's catalog is reset and then equals the fold `ScanFrom`; every other root's catalog is unchanged; `tile_format` and the returned error are those of the fold |
| `TBCB3K.TurBoCB3K.ScanModelDir` | TBCB3K.py:111-125 | the directory's key gets a fresh entry equal to `BuildEntry` of its files; nothing else in `models` changes |
| `TBCB3K.TurBoCB3K.SortedModels` | TBCB3K.py:134 | `ListsCatalog`: the list is strictly ascending by key, and holds every `(key, entry)` of the root's catalog exactly once and nothing else; its length is the catalog's size |
| `Strings.Split` | TBCB3K.py:99-100 | there is always at least one piece; `SplitJoin`, `SplitHasSecond` and `SplitAtFirst` state what the pieces are |
| `Strings.SplitAtFirst` | TBCB3K.py:99-100 | the first piece runs up to the first separator, and the rest is the split of what follows it |
| `Strings.SplitJoin` | TBCB3K.py:99-100 | joining the split pieces with the separator gives back the text, and no piece holds the separator |
| `Strings.SplitHasSecond` | TBCB3K.py:99-100 | the split has a second piece if and only if the separator occurs |
| `Strings.Replace` | TBCB3K.py:124 | the result has the same length, holds the replacement wherever the input held the replaced character, and keeps every other character |
| `Strings.ReplaceRemoves` | TBCB3K.py:124 | after the replacement the character is gone, and replacing again changes nothing |
| `Strings.EndsWith` | TBCB3K.py:117-119 | no contract of its own: the text ends with the suffix; used through `ClassifyCases` and `ClassifyOfStem` |
| `Strings.Basename` | TBCB3K.py:81 | the basename holds no `/` |
| `Strings.BasenameIsLastComponent` | TBCB3K.py:92 | the basename ends the path, and is either the whole path or follows a `/` |
| `Strings.PathJoin` | TBCB3K.py:124 | no contract of its own; its meaning is stated by `PathJoinEndsWithName` and `BasenameOfJoin` |
| `Strings.PathJoinEndsWithName` | TBCB3K.py:124 | the joined path ends with the name, and is either the name itself or has a `/` just before it |
| `Strings.BasenameOfJoin` | TBCB3K.py:92 | the basename of a directory joined with a file name is that file name |
| `Strings.LexLess` | TBCB3K.py:134 | no string is less than itself; `LexLessTransitive` and `LexLessTotal` make it a strict total order |
| `Strings.LexLessTransitive` | TBCB3K.py:134 | the order is transitive |
| `Strings.LexLessTotal` | TBCB3K.py:134 | any two different strings are ordered one way or the other |

## Left out

- The Tkinter GUI (`Application`, file dialogs, button enabling, `excepthook`, `main`, TBCB3K.py:154-317). It is UI event handling.
- `TextHandler` and the logging calls inside `scan`. They only produce output.
- The filesystem walk. The result of `os.walk(root, topdown=False)` is an input sequence, and the model does not check that it really is a walk of `root`. The `subdirs` of each step are carried but not used, as in the source.
- `os.path` on Windows. `Basename` splits only at `/`, and `PathJoin` follows POSIX rules. `ntpath` also splits at `\` and handles drive letters.
- The template loading, `render`, `build_pdf` and `save_to` parts of `create_pdf` (TBCB3K.py:131-132, 136-145). They call foreign libraries. Only the key-sorted list at line 134 is modelled.
- The float weights 0.20 and 0.30. They are exact `real` constants, because the scan does no arithmetic on them.
- `TBCB3K.TurBoCB3K.Scan`: requires `dir_path` to be set. The Python code would raise `TypeError` on `None`, but the GUI only starts a scan after a directory has been chosen.
- setup.py. It is packaging configuration.
