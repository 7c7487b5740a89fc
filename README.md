# assetfs, modelled in Dafny

assetfs is a generator and a runtime, and they share one index format.

- **Generator** (`assetfs.go`). It walks asset directories and emits Go source. That source embeds the files, plus an index of their metadata.
- **Runtime** (`internal/template.go`). It serves the index as an `http.FileSystem`.
- **Index.** File entries come first, then directory entries. Each directory lists the positions of its children. A `names` table maps every rooted path (`"/"`, `"/red"`, …) to its position.

This project models both halves and the index between them.

- `wrappers.dfy` — `Option` and `Result`, for Go's nil-or-value and value-or-error returns.
- `index.dfy` (`Index`) — the `_assetfs` value: `data`, `meta` and `names`. It also defines `WellFormed`:
  - files occupy `[0, F)` and directories occupy `[F, F + D)`;
  - every child position is in range, and files have no children;
  - `names` is a bijection onto the positions.
- `paths.dfy` (`Paths`):
  - `rootedName`;
  - the paths `filepath.Walk` reports for a root;
  - the key of a walked path.
- `tree.dfy` (`IndexTree`) — the `tree` of the generator, as class `Tree`:
  - `walkFunc` is specified by the pure transition `Walk`, whose invariant `Inv` is preserved;
  - `writeMetadata` is split into its loops (`Indexes`, `Subdirs`, `Invert`, `EmitMeta`, `NamesTable`). The resulting index is proved to be what `Emitted` describes, and that index is well formed.
- `section.dfy` (`Section`) — `writeSection`: the walk callback runs over a sequence of walk events, stops at the first error, and otherwise emits the index. `Build` proves two things on success:
  - the index is well formed;
  - every walked path is served under its key, with its metadata and contents.

  For a walk in the pre-order `filepath.Walk` makes, `WalkedChildren` proves that each walked directory lists exactly the entries walked in it. `WalkedReachable` proves that the root is served under "/" and that every other entry is a child of a directory walked before it.
- `errwriter.dfy` (`ErrWriting`) — `errWriter`, which keeps the first write error. After that error, every write returns it and forwards nothing.
- `runtime.dfy` (`Runtime`):
  - `_assetfs.Open`;
  - `_assetFile` as class `AssetFile`, with `Readdir`, `Read`, `Seek`, `Stat` and `Close`;
  - `bytes.Reader`, modelled as an offset cursor.
- `serving.dfy` (`Serving`) — the two halves together. A built index serves each walked file's contents. An unbounded Readdir on each walked directory returns exactly the entries walked in it.
- `sample.dfy` (`Sample`):
  - the `"static"` bundle of `internal/template.go`, and scenarios on it;
  - two walks at the 10 MiB ceiling;
  - a walk whose root is a regular file (`Sample.BuildFileRoot`).

Three things are inputs to the model rather than computed by it:

- **The walk.** It is a sequence of events. Each event carries:
  - the path;
  - its FileInfo;
  - `filepath.Dir` of the path;
  - the error `filepath.Walk` passes in;
  - what `ioutil.ReadFile` would return.
- **`path.Clean`.** It is a parameter `clean` of `Open`. Lemmas assume that it leaves the index keys as they are; `Sample.OpenErrors` also assumes that it turns "//blue" into "/blue".
- **The wrapped `io.Writer`.** Its answer to each write is a parameter.

The model follows the code in three places a reader might not expect:
- A directory's children list its files as well as its subdirectories. Files come first, in visit order, followed by the subdirectories shifted by the file count.
- A root that is a regular file does not abort the build. `filepath.Walk` calls `walkFunc` once on it, so "/" names that file and not a directory (`Sample.BuildFileRoot`).
- A root whose `filepath.Dir` is itself ("." or "/") is linked into its own `subdirs`.

The model does not follow the code in one place: the keys of the names table. `rootedName` gives unrooted keys under the roots `"."` and `"/"`, and under `"."` two keys can collide (see Findings). The model uses the corrected key `Paths.WalkKey` instead. For every other root the two are equal (`Paths.WalkKeyIsRootedName`).

## Model

| member | source | states |
|---|---|---|
| `Paths.TrimPrefix` | assetfs.go:155 | With the prefix present, prefix + result is the input; otherwise the input comes back unchanged. |
| `Paths.RootedName` | assetfs.go:154-160 | The root itself maps to "/". A name that extends the root maps to the rest of the name. A name without the root prefix comes back unchanged, and "" maps to "/". The result is never empty. |
| `Paths.WalkKey` | assetfs.go:167 | The key of a walked path begins with "/". It is "/" exactly for the root itself. |
| `Paths.WalkKeyIsRootedName` | assetfs.go:180 | For every root other than "." and "/", the key of a walked path is exactly `rootedName`. |
| `Paths.WalkKeyInjective` | assetfs.go:165-171 | Distinct walked paths get distinct keys, whatever the root. |
| `Paths.RootedNameCollidesUnderDot` | assetfs.go:154-160 | Under the root ".", the walked paths "x" and ".x" both get `rootedName` "x", with no leading "/". The corrected keys are "/x" and "/.x". |
| `Paths.RootedNameUnrootedUnderSlash` | assetfs.go:154-160 | Under the root "/", the walked path "/x" gets `rootedName` "x", with no leading "/". The corrected key is "/x". |
| `IndexTree.SizeCeiling` | assetfs.go:233-241 | Against the ceiling `MaxFileSize` of 10 << 20 bytes: a larger file is refused with `SizeExceeded` naming its path, and nothing is recorded. A file of exactly the ceiling is recorded as the next file, under the next file number. |
| `IndexTree.EmptyInv` | assetfs.go:127-132 | The empty tree satisfies the walk invariant. |
| `IndexTree.WalkDirKeepsNames` | assetfs.go:224-228 | Recording a new directory keeps the numbering invariant. Directories are numbered 0, 1, 2, … in visit order, each name maps to its number, and each directory has its `dirData`. |
| `IndexTree.WalkDirKeepsLinks` | assetfs.go:228-231 | Linking a new directory into its parent's `subdirs`, when the parent is known, keeps every child list ascending. Each list holds only children recorded under that parent. |
| `IndexTree.WalkDirKeepsInv` | assetfs.go:224-231 | A directory event on a new path keeps the whole invariant. |
| `IndexTree.WalkFileKeepsNames` | assetfs.go:236-238 | Recording a new file within the ceiling keeps the numbering invariant. Files are numbered 0, 1, 2, … in visit order. |
| `IndexTree.WalkFileKeepsLinks` | assetfs.go:239-241 | Appending a new file to its parent's `files`, when the parent is known, keeps the child lists ascending and correctly parented. |
| `IndexTree.WalkFileKeepsInv` | assetfs.go:232-245 | A file event on a new path within the ceiling keeps the whole invariant. |
| `IndexTree.WalkKeepsInv` | assetfs.go:220-249 | Every walk event on a path not seen before keeps the invariant. |
| `IndexTree.FinalIndexInverse` | assetfs.go:166-171 | A recorded path's final index is in `[0, F + D)`. It is at least F exactly when the path is a directory, and it leads back to the path. |
| `IndexTree.PathAtInverse` | assetfs.go:163-164 | Every final index below F + D belongs to a recorded path whose final index it is. |
| `IndexTree.InvNumbered` | assetfs.go:163-172 | Under the invariant, the final numbering is a bijection between the recorded paths and `[0, F + D)`. Files come first and directories are shifted by F. |
| `IndexTree.Invert` | assetfs.go:182-185 | `idx2name` has exactly the values of `indexes` as keys. Each key is mapped back to a name that carries it. |
| `IndexTree.NamesTable` | assetfs.go:203-207 | The emitted names table sends the name of each index below n back to that index, and holds no other key. |
| `IndexTree.ListingFacts` | assetfs.go:173-181 | A directory's final child list is strictly increasing and in range. Every child in it was recorded with that directory as its parent. |
| `IndexTree.IndexNames` | assetfs.go:182-185 | With distinct keys, `idx2name` names each final index by the key of the path recorded under it, one-to-one. |
| `IndexTree.DirChildren` | assetfs.go:196 | Each directory row finds, under its own key, its files followed by its subdirectories shifted by F. |
| `IndexTree.MetaShape` | assetfs.go:189-202 | The emitted rows put files before directories. Child lists are increasing and in range. Every listed child is recorded under the listing directory. |
| `IndexTree.TableFacts` | assetfs.go:203-207 | The emitted names table maps exactly the walked paths' keys, each to its final index, bijectively. |
| `IndexTree.TableBijective` | assetfs.go:205-206 | A table that sends each index's name back to that index is a bijection onto the positions. |
| `IndexTree.TableIndexes` | assetfs.go:168-170 | Each walked path's key is in the table, with that path's final index. |
| `IndexTree.TableNamesIndexes` | assetfs.go:205-206 | Every key of the table maps to an index in range that is named by that key. |
| `IndexTree.TableKeys` | assetfs.go:205 | The table's keys are exactly the walked paths' keys. |
| `IndexTree.WriteMetadataSound` | assetfs.go:162-209 | The results of the `writeMetadata` loops together form the index that `Emitted` describes. |
| `IndexTree.ChildList` | assetfs.go:175-179 | One directory's child list is its files, then its subdirectories plus the shift. |
| `IndexTree.Tree.constructor` | assetfs.go:127-132 | A new tree is empty, valid, and has the given root. |
| `IndexTree.Tree.WalkFunc` | assetfs.go:220-249 | Returns the event's own error, a `SizeExceeded` error, the `ReadFile` error, or nil. The new state is `Walk` of the old state, which records a directory or file as the source does. |
| `IndexTree.Tree.Indexes` | assetfs.go:165-172 | Each walked path's key maps to its final index, and nothing else is mapped. |
| `IndexTree.Tree.Subdirs` | assetfs.go:173-181 | Each directory's key maps to its final child list. |
| `IndexTree.Tree.EmitMeta` | assetfs.go:189-202 | File rows are emitted unchanged. Each directory row carries the children found under its name. |
| `IndexTree.Tree.WriteMetadata` | assetfs.go:162-209 | On a valid walk with distinct keys, the emitted index is `Emitted`: files then directories, children in range and in order, and names a bijection onto the entries. |
| `Section.FirstErrorSticks` | assetfs.go:133-135 | Once a prefix of the walk has failed, the whole walk fails with that same error. |
| `Section.WalkKeepsRecorded` | assetfs.go:220-249 | Handling an event leaves what is recorded under any other path unchanged. |
| `Section.WalkRecords` | assetfs.go:224-245 | An accepted event is recorded. A directory's FileInfo is stored under its number. A file's FileInfo and contents are stored under its number. |
| `Section.WalkAllPaths` | assetfs.go:133 | The walk names only the paths it was given. |
| `Section.WalkAllReads` | assetfs.go:242-246 | In a walk without errors, every numbered file has its contents read. |
| `Section.WalkAllInv` | assetfs.go:133 | A walk over distinct paths keeps the invariant. |
| `Section.WalkAllRecords` | assetfs.go:133-135 | A walk without errors, over distinct paths, records every event. |
| `Section.WalkAllKeysInjective` | assetfs.go:165-171 | The keys of a walk's paths are distinct. |
| `Section.ChildEvents` | assetfs.go:228-230 | The events walked with a given parent, of one kind, in visit order. An event is among them exactly when it was walked with that parent and is of that kind. There are none when no event was walked with that parent. |
| `Section.WalkFileListsChildren` | assetfs.go:236-241 | A file event on a new path is numbered at the end of its parent's `files`. Every listing stays exactly the numbers of the events walked with that directory as parent. |
| `Section.LinkFileLists` | assetfs.go:239-241 | Linking a new file into its parent keeps every listing exactly the numbers of the events walked under it. |
| `Section.LinkSubdirLists` | assetfs.go:228-230 | Linking a new subdirectory into its parent keeps every listing exactly the numbers of the events walked under it. |
| `Section.WalkDirListsChildren` | assetfs.go:224-231 | A directory event on a new path starts with an empty listing, because no earlier event lies in it. It is numbered at the end of its parent's `subdirs`. |
| `Section.WalkStepListsChildren` | assetfs.go:219-246 | One more event of a pre-order walk without errors keeps every directory's `files` and `subdirs` equal to the children walked in it so far. |
| `Section.WalkAllListsChildren` | assetfs.go:133 | After a pre-order walk without errors, every directory's `files` and `subdirs` number exactly the files and subdirectories walked in it, in visit order. |
| `Section.EmittedServes` | assetfs.go:162-209 | Every recorded event is served by the emitted index under its key. The entry carries the event's name, mode, mtime and kind; a file also carries its size and contents. |
| `Section.DirRow` | assetfs.go:194-198 | The emitted row of directory `j` carries that directory's final child list. |
| `Section.DirKeyRow` | assetfs.go:165-198 | Under a recorded directory's key, the emitted index holds that directory's final child list. |
| `Section.ListedFiles` | assetfs.go:176 | A directory's `files` are the final positions of the keys of the files walked in it, in visit order. |
| `Section.ListedSubdirs` | assetfs.go:177-179 | A directory's `subdirs`, shifted past the files, are the final positions of the keys of the subdirectories walked in it, in visit order. |
| `Section.EmittedLists` | assetfs.go:173-198 | The emitted child list of a recorded directory is the positions of the keys of exactly the events walked in it: files, then subdirectories. |
| `Section.WalkedChildren` | assetfs.go:125-209 | In the index built from a pre-order walk, each walked directory lists exactly the entries walked in it. Its files come first in visit order, then its subdirectories in visit order. |
| `Section.ListedUnderParent` | assetfs.go:228-241 | Every walked entry other than the root is among the children of the directory it was walked under. |
| `Section.RootServed` | assetfs.go:125-209 | The root of the walk is served under "/". |
| `Section.WalkedReachable` | assetfs.go:125-209 | The root is served under "/". Every other walked entry is a child of a directory walked before it, so every entry is reachable from "/". |
| `Section.Build` | assetfs.go:125-138 | `writeSection` fails exactly when some event fails, and then with the first failure. On success, the index is `Emitted` and `WellFormed`, and it serves every walked path. |
| `ErrWriting.ReplayIsFirstFailure` | assetfs.go:253-273 | After any sequence of writes, `err` is the first error the wrapped writer returned. The wrapped writer received exactly the writes up to and including that failure. |
| `ErrWriting.StuckReplay` | assetfs.go:265-267 | Once a write has failed, later writes change nothing. |
| `ErrWriting.Answers` | assetfs.go:264-273 | There is one answer per write, and the j-th is what `Write` returns in the state the j writes before it left. |
| `ErrWriting.StuckAnswers` | assetfs.go:265-267 | Once a write has failed, every later write returns 0 and that first error. |
| `ErrWriting.ErrWriter.constructor` | assetfs.go:251 | A new wrapper has no error and has forwarded nothing. |
| `ErrWriting.ErrWriter.Err` | assetfs.go:258-259 | `Err` is the first error of all writes so far, or nil. |
| `ErrWriting.ErrWriter.Write` | assetfs.go:261-273 | After a failure, returns 0 and the stored error, and forwards nothing. Otherwise forwards `p`, returns the wrapped writer's answer, and keeps its error. |
| `Runtime.ReaderRead` | internal/template.go:113 | The reader returns `EOF` exactly at or past the end. Otherwise it returns the next bytes, at most the buffer size, and advances past them. With a non-empty buffer it returns at least one byte. |
| `Runtime.ReaderSeek` | internal/template.go:107 | On success, the new offset is returned and becomes the reader's offset. An error leaves the reader unchanged and returns 0. `Seek(0, SeekCurrent)` reports the offset. |
| `Runtime.ReadToEndIsRest` | internal/template.go:109-114 | Repeated Reads with any non-empty buffer return the rest of the file from the offset, then `EOF`. |
| `Runtime.SeekThenRead` | internal/template.go:103-114 | Seeking from the start succeeds exactly for a non-negative offset. Reading to the end afterwards yields the bytes from that offset. |
| `Runtime.Entries` | internal/template.go:84-86 | The entries of a list of positions are the `meta` rows at those positions, in order. |
| `Runtime.ReaddirSpec` | internal/template.go:75-102 | On a file, `ErrInvalid` with the cursor unchanged. At the end, nil for `count <= 0` and `EOF` otherwise. Else it returns the entries of the next children, all of them or at most `count`, and advances the cursor by that many, never past the end. |
| `Runtime.DrainIsRest` | internal/template.go:90-101 | Bounded Readdir calls return, concatenated, the entries of all remaining children in order, and then `EOF`. |
| `Runtime.UnboundedThenEnd` | internal/template.go:79-89 | An unbounded Readdir returns every remaining child. After it, another unbounded call returns nil and nil, and a bounded call returns `EOF`. |
| `Runtime.Opened` | internal/template.go:24-46 | On a nil file system, Open returns a `PathError` for "open" wrapping `ErrNotExist`. It succeeds exactly when the cleaned name is a key, and otherwise returns `ErrNotExist`. The handle holds that entry and a cursor at 0, and it has a reader at offset 0 over the entry's data exactly when the entry is not a directory. |
| `Runtime.WellFormedServable` | internal/template.go:18-22 | A well-formed index satisfies every lookup that Open makes. |
| `Runtime.EveryEntryOpens` | internal/template.go:32-45 | In a well-formed index, every entry is what Open returns for some key. |
| `Runtime.FillEntries` | internal/template.go:83-86 | The unbounded loop's buffer holds the entries of the remaining children. |
| `Runtime.AppendEntries` | internal/template.go:93-99 | The bounded loop appends the entries of the first `min(count, remaining)` children. |
| `Runtime.AssetFile.constructor` | internal/template.go:38-44 | A handle holds the entry, the reader and the cursor it is given. |
| `Runtime.AssetFile.Close` | internal/template.go:73 | `Close` always returns nil. |
| `Runtime.AssetFile.Stat` | internal/template.go:74 | `Stat` returns the handle's entry unchanged, with a nil error. |
| `Runtime.AssetFile.Readdir` | internal/template.go:75-102 | Readdir does what `ReaddirSpec` says, and the cursor stays within the child list. |
| `Runtime.AssetFile.Read` | internal/template.go:109-114 | On a directory, Read returns `ErrIsDirectory` and leaves the reader untouched. Otherwise it performs the reader's Read. |
| `Runtime.AssetFile.Seek` | internal/template.go:103-108 | On a directory, Seek returns 0 and `ErrIsDirectory`. Otherwise it performs the reader's Seek. |
| `Runtime.Open` | internal/template.go:24-46 | Open returns a fresh handle in the state `Opened` gives, or nil and `Opened`'s error. |
| `Serving.WalkedFileReadsBack` | internal/template.go:32-45 | A file that the built index serves opens under its key, with the walked name, size, mode and mtime. Reading it to the end yields the contents read at build time. |
| `Serving.EventsServed` | internal/template.go:32-45 | Every event of a walk without errors is served by the index built from it. |
| `Serving.KeysReadBack` | internal/template.go:79-88 | A directory entry whose children are the positions of some keys opens as a directory. One unbounded Readdir returns the entries under those keys, in order. |
| `Serving.WalkedDirLists` | internal/template.go:79-88 | A walked directory opens under its key. One unbounded Readdir returns exactly the entries of the paths walked in it: files in visit order, then subdirectories. The directory and each entry carry their walked metadata. |
| `Sample.StaticWellFormed` | internal/template.go:119-135 | The `"static"` bundle is well formed. |
| `Sample.NamesOf` | internal/template.go:58 | The names of a list of entries, in order. |
| `Sample.ReadRed` | internal/template.go:121-130 | Opening "/red" and reading it yields "abc". |
| `Sample.ListRoot` | internal/template.go:127-132 | An unbounded Readdir on "/" lists "red" then "green". Read and Seek on "/" return `ErrIsDirectory`. |
| `Sample.OpenErrors` | internal/template.go:25-36 | A missing path returns `ErrNotExist`. A nil file system returns a `PathError` wrapping `ErrNotExist`. |
| `Sample.ReaddirStatic` | internal/template.go:90-101 | `Readdir(1)` on "/" returns "red", then "green", then `EOF`. An unbounded call after that returns nil and nil. |
| `Sample.OneFileAccepted` | assetfs.go:233 | A walk holding one file of exactly 10 MiB has no error. |
| `Sample.BuildOverCeiling` | assetfs.go:233-235 | A file one byte over 10 MiB stops `writeSection` with an error naming it. |
| `Sample.BuildHolds` | assetfs.go:125-138 | A walk without errors builds an index that holds the key of each walked path. |
| `Sample.BuildAtCeiling` | assetfs.go:21 | A file of exactly 10 MiB is built and served as "/big". |
| `Sample.BuildFileRoot` | assetfs.go:133 | A walk whose root is a regular file builds without error, and "/" names that file's entry, with its contents, not a directory. |

## Left out

- `main`, flags and environment defaults, `generateMain`/`generateStub`, temporary files, chmod and rename, `writeHeader`/`writeTail`: command-line handling and OS I/O.
- The `fmt` text that `writeSection`, `walkFunc` and `writeMetadata` print. The index is modelled as data (`Index.AssetFS`).
  - A directory row is printed without a size, so its size is 0 (`IndexTree.DirItem`).
  - An empty child list is printed as no children, so it reads as empty.
- `filepath.Walk` and `ioutil.ReadFile` are filesystem I/O.
  - The walk is an input sequence of events, and `filepath.Dir` is each event's `parent`.
  - `Section.WellWalked` states what `filepath.Walk` guarantees. Each path is reported once, under a root in clean form, and the root comes first. Every other path comes after the directory it lies in. Roots with a trailing slash are not modelled.
  - The invariant and recording lemmas hold for any visit order. Only the listing lemmas use the pre-order: `Section.WalkDirListsChildren`, `Section.WalkStepListsChildren`, `Section.WalkAllListsChildren`, and `Section.WalkedChildren` with every lemma after it.
  - `filepath.Walk` reports a directory a second time, with an error, when it cannot read the directory. The model reports each path once. That second report only ever stops the walk with its error.
- The length of a file's contents is not tied to its FileInfo size. Sizes come from FileInfo.
- `path.Clean` is a parameter of `Open`. Lemmas assume that it leaves the index's keys unchanged (`Runtime.CleanKeeps`). `Sample.OpenErrors` also assumes that it turns "//blue" into "/blue".
- `bytes.Reader` is library code outside the repository. It is modelled from its documented `Read`/`Seek` behaviour as an offset cursor.
  - Read's count is the length of the bytes returned, and the caller's buffer is only its length.
  - Other Reader methods are not modelled.
- Go integer widths: sizes, modification times, offsets and counts are unbounded integers. int64 overflow is not modelled.
- `time.Unix` in `ModTime` and the meaning of `os.FileMode` bits: these values pass through unchanged.
  - The `_itemMetadata` getters `Name`, `Size`, `Mode`, `ModTime` and `IsDir` are the fields of `Index.ItemMetadata`.
  - `Sys` (always nil) is not modelled.
- Go's nil slice and empty slice are both `[]`. Readdir's `nil, nil` is an empty result with no error.
- The `_assetFilesystems` registry, `AssetDir`, the development stub, and the copy of the runtime embedded as the `head` string: registry glue and a verbatim duplicate.
- `dirInfo` pointers are values in `dirData`. Only the map refers to them, so updating the map entry is the same as updating through the pointer.
- Go's random map iteration order: the loops over `names`, `dirData` and `indexes` pick their next key by choice, so the proofs hold for every order.
- `IndexTree.Tree.WalkFunc`: the contract ties the new state to `Walk` and does not itself require or promise `Valid()`. `IndexTree.WalkKeepsInv` proves that validity is kept when the path is new.
- `IndexTree.Tree.WriteMetadata`: requires distinct keys for the walked paths. This holds for the corrected keys (`Section.WalkAllKeysInjective`). It does not hold for `rootedName` under the root "." (see Findings).
- `IndexTree.Tree.Indexes`: keys each path with the corrected `Paths.WalkKey`, not with `rootedName` as assetfs.go:167 does. The two differ only under the roots "." and "/" (see Findings).
- `IndexTree.Tree.Subdirs`: keys each directory with the corrected `Paths.WalkKey`, not with `rootedName` as assetfs.go:180 does. The two differ only under the roots "." and "/" (see Findings).
- `IndexTree.MetaShape`: states only that every listed child belongs to the listing directory, in visit order. The converse, that every child walked in a directory is listed, is `Section.WalkedChildren`. It needs the pre-order of the walk.
- `Section.Build`: a root that is not a directory is not rejected, as the source does not reject it. `Section.WellWalked` admits a walk of one file event on the root, and the built index then maps "/" to a file entry (`Sample.BuildFileRoot`).
- A root whose `filepath.Dir` is itself ("." or "/") is linked into its own `subdirs`, as the source does.
- `Runtime.AssetFile.Close` changes nothing, so use after Close is not guarded, as in the source.
- `Runtime.Open` requires every key to name an entry, and every file entry to have data (`Runtime.Servable`). `Runtime.AssetFile.Readdir` requires every child of the entry to name an entry (`Runtime.ChildrenIn`; internal/template.go:85 and :98). Go would panic on an index that breaks either.

## Findings

| source | as written | input that shows it | evidently intended | confidence | as-written member | corrected member |
|---|---|---|---|---|---|---|
| assetfs.go:154-160 | `rootedName` strips the root as a plain string prefix. Under the root ".", `filepath.Walk` reports "x" and ".x", and both become "x", with no leading "/". The names table then loses an entry. Also, `Open` always looks up a key that starts with "/", so neither file can be found. | the directory "." holding the files `x` and `.x` | Keys are "/" plus the path relative to the root: "/x" and "/.x". They are distinct and rooted. | not executed | `Paths.RootedNameCollidesUnderDot` | `Paths.WalkKeyInjective` |
| assetfs.go:154-160 | Under the root "/", `filepath.Walk` reports the child `x` of the root as "/x". `rootedName` strips the "/" and gives "x". `Open` looks up `path.Clean("/" + name)` (internal/template.go:32-33), which always starts with "/", so the file can never be found. | the root "/" holding the file `x` | The key is "/x", the path relative to the root with a leading "/". | not executed | `Paths.RootedNameUnrootedUnderSlash` | `Paths.WalkKey` |
