# Vendoring pipeline of `build.js`, modelled and verified in Dafny

`build.js` vendors front-end assets. For each row of its configuration table
(`{ name, file, rename? }`) it:

- finds the package in `node_modules`;
- reads the version from the package's `package.json`;
- copies the named file or directory to `libs/<name>/<version>/<fileName>`, unless that path already exists.

It then walks `libs` and writes `catalog.json`:

- one entry per library directory;
- for each library, its version directories, newest first;
- for each version, the URL of every file below it, without source maps and without any URL that contains `webfonts/`.

The model treats the filesystem as a value, a tree of named entries
(`FsTree.Node`). Both phases act on the same tree, so the archiver's
postconditions link to the catalog's.

| file | module | what it holds |
|---|---|---|
| `paths.dfy` | `Paths` | path strings and their segments; the `path.join` normalisation used; `path.basename`; the `/`-joined URL suffix |
| `fstree.dfy` | `FsTree` | the tree; lookup by path (`At`, `Stat`); `ensureDirSync` (`EnsureDir`); placing a copy (`Put`); the well-formedness invariant `Valid` |
| `archiver.dfy` | `Archiver` | phase A: destination naming; one entry as a function (`Archive`); the whole table (`ArchiveAll`); the mutable `Store` class whose `ArchiveEntry` and `Run` methods change the project tree in place |
| `order.dfy` | `Order` | the newest-first sort of a library's listing, with the comparator as a parameter |
| `catalog.dfy` | `Catalog` | phase B: `scanDir` (`ScanDir`), the filter, the version and library lists, `BuildCatalog`, and lookups in the result |
| `scoped.dfy` | `ScopedCatalog` | a catalog that understands scoped package names (see Findings) |
| `build.dfy` | `Build` | the whole script (`Script`, `RunScript`) and end-to-end lemmas linking a copied entry to its catalog listing |

Modelling choices:

- **Paths** are sequences of segments. A path string is split on `/`, and empty and `.` pieces are dropped, as `path.join` drops them.
- **A scoped name** such as `@scope/pkg` therefore becomes two directory levels, just as it does on disk.
- **A package's `package.json`** is an entry of a map from package name to its version and its file tree. A name absent from the map has no `package.json`.
- **Uncaught exceptions** end the run before `catalog.json` is written. The model has three of them:
  - a file in the way of `ensureDirSync` (build.js:60), which gives the archiver's `Aborted` outcome;
  - a missing source for `statSync` (build.js:63), which also gives `Aborted`;
  - `readdirSync` on a `libs` that is a file (build.js:77), which makes `BuildCatalog` return `None`.

  The others that build.js can throw are listed under "Left out".
- **The version comparator** is a parameter `le`. The sort lemmas require it to be a total preorder.

## Model

| member | source | states |
|---|---|---|
| Paths.JoinSplit | build.js:55 | joining the pieces of any string with `/` gives the string back |
| Paths.SegmentsAtSlash | build.js:55 | the segments of `a/b` are the segments of `a` followed by those of `b` |
| Paths.BaseNameOfJoin | build.js:52 | `path.basename` of `dir/name` is `name`, whatever `dir` is |
| Paths.BaseNameTrailingSlash | build.js:52 | a trailing `/` does not change `path.basename` |
| Paths.BaseNameEmpty | build.js:52 | `path.basename` is empty exactly when the path has no character other than `/` |
| Paths.SplitSlashed | build.js:94-97 | a URL built by putting `/` before each segment splits back into those segments |
| FsTree.EnsureDirSpec | build.js:60 | `ensureDirSync(p)` succeeds iff no prefix of `p` is a file; on success every prefix is a directory and every path that is not a prefix of `p` is unchanged |
| FsTree.EnsureDirPresent | build.js:60 | `ensureDirSync` on an existing directory leaves the tree as it is |
| FsTree.EnsureDirExtends | build.js:60 | `ensureDirSync` removes and overwrites nothing |
| FsTree.PlaceableIff | build.js:58-64 | a copy can be placed at `p` iff `p` is absent and its parent is a directory |
| FsTree.PutSpec | build.js:64-66 | after the copy, the source node is at `p`, every strict prefix is a directory, and every path beside `p` is as before |
| FsTree.PutExtends | build.js:64-66 | placing a copy at an absent path removes and overwrites nothing |
| FsTree.PutValid | build.js:64-66 | placing a well-formed copy keeps the tree well formed |
| FsTree.EnsureDirValid | build.js:60 | `ensureDirSync` keeps the tree well formed |
| Archiver.FileNameSpec | build.js:52 | a non-empty `rename` names the copy. Otherwise the copy takes the last name of `file`: a slash-free `file` such as `webfonts` names the copy itself, `dir/base` gives `base`, and `dir/` gives the base name of `dir`. This holds whether the source is a file or a directory |
| Archiver.DestPathLayout | build.js:55 | the destination is `libs`, then the segments of the name, the version and the file name |
| Archiver.DestPathPlain | build.js:55 | for plain names the destination is exactly `[libs, name, version, fileName]` |
| Archiver.DestPathScoped | build.js:55 | for `@scope/pkg` the destination is `[libs, @scope, pkg, version, fileName]`, four levels deep |
| Archiver.Store.ArchiveEntry | build.js:39-71 | one entry, changing the store's tree in place: outcome and new tree are those of `Archive` on the old tree |
| Archiver.Store.Run | build.js:39-71 | the `forEach` over the table, changing the tree in place: result and new tree are those of `ArchiveAll` on the old tree |
| Archiver.ArchiveOutcome | build.js:45-67 | an entry is skipped iff its package has no `package.json`. Otherwise it is already present iff the destination exists. It aborts on a blocked parent iff a strict prefix of the destination is a file, and on a missing source iff the source path is absent. It is copied in every other case |
| Archiver.ArchiveUnchanged | build.js:45-60 | a skipped entry, a present destination, or a blocked parent leaves the tree exactly as it was |
| Archiver.ArchiveCopies | build.js:58-67 | a copied entry puts the source at the destination, makes every directory above it, and leaves every other path as it was |
| Archiver.ArchiveCopiesSubtree | build.js:63-67 | a copied directory keeps its layout: `dest + rel` holds what `source + rel` holds |
| Archiver.ArchiveExtends | build.js:58-67 | an entry never removes or overwrites anything already in the tree |
| Archiver.ArchiveSettled | build.js:58 | after an entry that did not abort, the same entry on any tree that extends the result changes nothing |
| Archiver.ArchiveAbortRepeats | build.js:60-63 | an aborted entry aborts the same way when run again and changes nothing more |
| Archiver.ArchiveIdempotent | build.js:58 | running one entry twice leaves the same tree as running it once |
| Archiver.ArchiveValid | build.js:39-71 | an entry keeps the tree well formed |
| Archiver.ArchiveAllExtends | build.js:39-71 | the whole table never removes or overwrites anything |
| Archiver.ArchiveAllIdempotent | build.js:39-71 | running the whole table again on its result gives the same tree and the same completion flag |
| Archiver.ArchiveAllSkipsMissing | build.js:45-48 | a table whose packages are all missing completes and leaves the tree unchanged |
| Archiver.ArchiveAllValid | build.js:39-71 | the whole table keeps the tree well formed |
| Order.SortDescPermutes | build.js:82 | the sorted listing is a permutation of the listing |
| Order.SortDescSorted | build.js:82 | with a total-preorder comparator, the sorted listing is newest first |
| Order.SortDescUnique | build.js:82 | sorting keeps the entry names distinct |
| Order.InsertPosition | build.js:82 | one insertion step puts the entry after every entry that sorts strictly before it and in front of the first that does not, so equal-ranked names keep their listing order |
| Catalog.Filter | build.js:105 | the filtered list holds exactly the kept elements of the list, and is no longer |
| Catalog.IncludesIff | build.js:105 | `includes` holds iff the substring occurs at some offset |
| Catalog.ListedIff | build.js:105 | a URL is listed iff it does not end in `.map` and `webfonts/` occurs at no offset |
| Catalog.FilterAppend | build.js:105 | filtering distributes over concatenation, so the kept URLs keep their relative order |
| Catalog.FilterAllKept | build.js:105 | filtering removes nothing the predicate keeps |
| Catalog.FilterDistinct | build.js:105 | filtering keeps a list free of duplicates |
| Catalog.ScriptListed | build.js:105 | a URL ending in `.js` or `.css` is listed iff `webfonts/` occurs in it at no offset |
| Catalog.SourceMapDropped | build.js:105 | every URL ending in `.map` is dropped |
| Catalog.WebfontDropped | build.js:105 | every URL with `webfonts/` anywhere in it is dropped |
| Catalog.ScanDirIsUrls | build.js:91-101 | `scanDir` lists, depth first, the root URL followed by the `/`-joined relative path of every leaf of the reference leaf list |
| Catalog.LeavesExact | build.js:91-99 | a relative path is a leaf iff a file, not a directory, is there |
| Catalog.LeavesDistinct | build.js:91-99 | in a well-formed tree no leaf is listed twice |
| Catalog.UrlInjective | build.js:94-101 | different relative paths give different URLs |
| Catalog.ScanDirExact | build.js:91-101 | before filtering, a version's list holds the URL of every file below it exactly once, and nothing for a directory |
| Catalog.VersionFiles | build.js:91-105 | after filtering, a version's list holds exactly the listed URLs of its files, each once |
| Catalog.FileListed | build.js:101-105 | the URL of relative path `p` is in a version's files iff a file is at `p` and the URL passes the filter |
| Catalog.VersionListLookup | build.js:84-107 | a version is found in a library's list iff that name is a directory in the listing; its files are that directory's filtered scan |
| Catalog.LibraryListLookup | build.js:77-109 | a library is found in the catalog iff that name is a directory in `libs`; its versions come from its sorted listing |
| Catalog.ChildByMembership | build.js:78-86 | in a listing with distinct names, the child called `x` is the entry called `x` |
| Catalog.SortedLookup | build.js:82-86 | sorting a library's listing changes no lookup by version name |
| Catalog.VersionsList | build.js:82-107 | within one library, the URL of `ver/p` is listed iff that is a file and the URL passes the filter |
| Catalog.LibrariesList | build.js:77-109 | across `libs`, the URL of `name/ver/p` is listed under `name` and `ver` iff that is a file and the URL passes the filter |
| Catalog.CatalogListsFile | build.js:75-111 | the catalog exists iff `libs` is not a file; it lists the URL of `libs/name/ver/p` under `name` and `ver` iff that is a file and the URL passes the filter |
| Catalog.CatalogShape | build.js:76-109 | every directory of `libs` is a library, even one with no versions, and nothing else is; a library's versions are exactly its sub-directories; no library name and, under a library, no version name appears twice |
| Catalog.LibraryNamesDistinct | build.js:77-109 | a listing with distinct names gives a library list in which no name appears twice |
| Catalog.VersionNamesDistinct | build.js:85-107 | a listing with distinct names gives a version list in which no version appears twice |
| Catalog.CatalogNamesDistinct | build.js:75-111 | in a well-formed tree the catalog has one entry per library directory and, under each library, one entry per version directory |
| Catalog.VersionListSorted | build.js:82-107 | a library's versions keep the newest-first order of its sorted listing |
| Catalog.CatalogVersionsSorted | build.js:82-109 | with a total-preorder comparator, every library in the catalog lists its versions newest first |
| Catalog.LibraryFrom | build.js:77-109 | each library of the catalog comes from a directory of `libs`, and its versions are that directory's sorted version list |
| ScopedCatalog.ScopeOfName | build.js:55 | two `scope/pkg` names with slash-free scopes are equal only when both parts are |
| ScopedCatalog.MembersLookup | build.js:77-109 | inside one scope directory, `scope/pkg` is found iff `pkg` is a sub-directory |
| ScopedCatalog.ScopedLookup | build.js:77-109 | in the scope-aware catalog, `@scope/pkg` is found iff `libs/@scope/pkg` is a directory; its versions are that directory's sub-directories |
| ScopedCatalog.PlainLookup | build.js:77-109 | in the scope-aware catalog, an unscoped name is found exactly as in the catalog of build.js |
| ScopedCatalog.ScopedLibrariesList | build.js:77-109 | across `libs`, with scopes expanded, the URL of `@scope/pkg/ver/p` is listed under `@scope/pkg` and `ver` iff that is a file and the URL passes the filter |
| ScopedCatalog.ScopedListsFile | build.js:75-111 | in the scope-aware catalog, the URL of `libs/@scope/pkg/ver/p` is listed under `@scope/pkg` and `ver` iff that is a file and the URL passes the filter |
| Build.RunScript | build.js:39-112 | the script, changing the project tree in place: new tree and catalog are those of `Script` on the old tree |
| Build.ScriptIdempotent | build.js:39-112 | running the script on its own result gives the same tree and the same catalog |
| Build.ScriptExtends | build.js:39-71 | the script never removes or overwrites anything in the project tree |
| Build.CatalogNamesHaveNoSlash | build.js:77-79 | no library of the catalog has a `/` in its name |
| Build.CopiedTree | build.js:58-67 | a copied entry leaves a well-formed tree whose `libs` is a directory holding the source's contents at the destination |
| Build.EntryListed | build.js:75-111 | the catalog lists the URL of `libs/name/ver/fn/rel` under `name` and `ver` iff a file is there and the URL passes the filter |
| Build.CopiedCatalogued | build.js:39-111 | once an entry with plain names is copied, each file of the copy is listed under the entry's name and version iff its URL passes the filter |
| Build.ScopedUrl | build.js:55 | the URL of a scoped entry read as library `@scope` and version `pkg` is the same string as the one read as `@scope/pkg` and its version |
| Build.ScopedEntryMisfiled | build.js:75-111 | the catalog of build.js has no library `@scope/pkg`, and lists the files of `libs/@scope/pkg/ver/...` under library `@scope` and version `pkg` |
| Build.ScopedCopyMislabelled | build.js:39-111 | as written: a copied entry of `@scope/pkg` is not catalogued under its own name but under library `@scope`, version `pkg` |
| Build.ScopedEntryListed | build.js:75-111 | the scope-aware catalog lists the URL of `libs/@scope/pkg/ver/fn/rel` under `@scope/pkg` and `ver` iff a file is there and the URL passes the filter |
| Build.ScopedCopyCatalogued | build.js:39-111 | corrected: a copied entry of `@scope/pkg` is listed under `@scope/pkg` and its package's version iff its URL passes the filter |

## Left out

- **Real filesystem calls.** `fs-extra` internals, file modes, symbolic links and disk errors are left out. The tree is a value, and `existsSync`, `statSync`, `readdirSync`, `ensureDirSync` and `copySync` are read off it.
- **Listing order.** In the model, `readdirSync` returns entries in the order they were stored, and a newly created entry goes last in its directory. On POSIX systems Node's `readdirSync` goes through libuv's scandir, which sorts names by byte order (`strcmp`). The model does not capture that order, so it differs from a real run in:
  - the order of libraries in `catalog.json`;
  - the order of files within a version;
  - the order among versions that the comparator ranks equal.
- **`require` of `package.json`.** It is a map lookup, and every package in the map has a version string.
- **Exceptions the model does not raise.** These end a real run with an uncaught exception, but the model has no input that reaches them:
  - a `package.json` without a `version` field: `path.join` at build.js:55 then receives `undefined` and throws a type error;
  - a `package.json` that is not valid JSON, so `require` throws at build.js:50;
  - I/O errors of `copySync` (build.js:64-66);
  - I/O errors of `readdirSync` or `statSync` other than the one on a `libs` that is a file (build.js:77-98).
- **`path.join`.** Normalisation is modelled as dropping empty and `.` segments. `..` is not resolved, and platform separators are not modelled.
- **`__dirname`.** It is the root of the project tree. `node_modules/<name>` is the package's own tree in the package map.
- **`localeCompare`.** The ICU `localeCompare` with `numeric: true, sensitivity: 'base'` is the parameter `le`. Only the sorted order and the permutation are proved, for any total preorder, so no concrete version ordering such as "10.0.0 before 2.0.0" is proved.
- **The sort's algorithm.** The sort is an insertion sort over the listing's entries, not Array.prototype.sort over bare names followed by a lookup by name. With distinct names the two give the same version list. Both are stable: `Order.InsertPosition` shows that an entry goes in front of the entries ranked equal to it that come after it in the listing. So names the comparator ranks equal keep their listing order, as in V8's stable `Array.prototype.sort`.
- **Output.** JSON serialisation of `catalog.json`, the write itself, and console logging are left out. The catalog is a `seq<LibraryInfo>`.
- **Configuration.** The contents of the configuration table (build.js:5-31) are not modelled; the table is the parameter `libs`.
- **What build.js does not do.** The model has none of these either:
  - `file` names one path; build.js has no glob patterns.
  - build.js has no output-name alias; the library directory is the package name.
  - build.js does not limit `rename` to files; it applies to directories too.
  - The filter is hard-coded, not configurable.
  - build.js does not skip an entry whose source is missing or whose parent directory is blocked by a file; the exception ends the whole run.

## Findings

| source | as written | input that shows it | evidently intended | confidence | as-written member | corrected member |
|---|---|---|---|---|---|---|
| build.js:55, build.js:77-101 | The archive path of a scoped package `@scope/pkg` has two name levels. The catalog takes each top-level directory of `libs` for a library and each sub-directory for a version. So it reports library `@scope` with version `pkg`, and folds the real versions into the file paths | the table's row `{ name: '@fortawesome/fontawesome-free', file: 'css/all.min.css', rename: 'fontawesome.min.css' }` with version 6.5.1: the catalog has no library `@fortawesome/fontawesome-free`; it lists `/libs/@fortawesome/fontawesome-free/6.5.1/fontawesome.min.css` under library `@fortawesome`, version `fontawesome-free` | a scope directory groups libraries, so the copy is listed under library `@fortawesome/fontawesome-free`, version `6.5.1` | not executed | Build.ScopedCopyMislabelled | Build.ScopedCopyCatalogued |
