/** The whole build script: phase A archives every configured entry into the
    project tree, phase B reads the catalog back from the tree phase A left.
    An entry that aborts ends the script before any catalog is written. */
module Build {
  import opened Paths
  import opened FsTree
  import opened Archiver
  import opened Order
  import opened Catalog
  import opened ScopedCatalog

  /** The project tree after the script, and the catalog it writes, if any. */
  function Script(t: Node, libs: seq<LibSpec>, cache: Cache, le: (string, string) -> bool)
    : (Node, Option<seq<LibraryInfo>>)
  {
    var (completed, u) := ArchiveAll(t, libs, cache);
    (u, if completed then BuildCatalog(u, le) else None)
  }

  /** build.js run once over the project directory held by `store`. */
  method RunScript(store: Store, libs: seq<LibSpec>, cache: Cache, le: (string, string) -> bool)
    returns (catalog: Option<seq<LibraryInfo>>)
    modifies store
    ensures (store.root, catalog) == Script(old(store.root), libs, cache, le)
  {
    var completed := store.Run(libs, cache);
    if !completed {
      return None;
    }
    catalog := BuildCatalog(store.root, le);
  }

  /** Running the script a second time changes nothing and writes the same
      catalog. */
  lemma ScriptIdempotent(t: Node, libs: seq<LibSpec>, cache: Cache, le: (string, string) -> bool)
    ensures Script(Script(t, libs, cache, le).0, libs, cache, le) == Script(t, libs, cache, le)
  {
    ArchiveAllIdempotent(t, libs, cache);
  }

  /** The script never removes or overwrites anything in the project tree. */
  lemma ScriptExtends(t: Node, libs: seq<LibSpec>, cache: Cache, le: (string, string) -> bool)
    ensures Extends(t, Script(t, libs, cache, le).0)
  {
    ArchiveAllExtends(t, libs, cache);
  }

  /** Entry names are single segments, so no library of the catalog has a
      name with a '/' in it. */
  lemma CatalogNamesHaveNoSlash(project: Node, le: (string, string) -> bool, name: string)
    requires Valid(project)
    requires '/' in name
    requires BuildCatalog(project, le).Some?
    ensures LookupLibrary(BuildCatalog(project, le).value, name) == None
  {
    match At(project, [DIST_DIR]) {
      case None =>
      case Some(File(_)) =>
      case Some(Dir(es)) =>
        AtValid(project, [DIST_DIR]);
        LibraryListLookup(es, le, name);
        assert forall k :: 0 <= k < |es| ==> es[k].name != name;
    }
  }

  /** What a copied entry leaves for the catalog: a well-formed tree whose
      `libs` is a directory, holding the source's contents at the destination. */
  lemma CopiedTree(t: Node, lib: LibSpec, cache: Cache, rel: Path)
    requires Valid(t)
    requires forall n :: n in cache ==> Valid(cache[n].files)
    requires Archive(t, lib, cache).0 == Copied
    requires |DestPath(lib, cache[lib.name].version)| > 1
    ensures
      var u := Archive(t, lib, cache).1;
      && Valid(u)
      && IsDirAt(u, [DIST_DIR])
      && At(u, DestPath(lib, cache[lib.name].version) + rel) == At(cache[lib.name].files, SourcePath(lib) + rel)
  {
    var dest := DestPath(lib, cache[lib.name].version);
    ArchiveValid(t, lib, cache);
    ArchiveCopies(t, lib, cache);
    ArchiveCopiesSubtree(t, lib, cache, rel);
    assert dest[..1] == [DIST_DIR];
    assert [DIST_DIR] < dest;
  }

  /** The catalog of a tree with a `libs` directory lists the URL of
      `libs/<name>/<v>/<fn>/rel` under `name` and `v` exactly when a file is
      there and the URL passes the filter. */
  lemma EntryListed(u: Node, le: (string, string) -> bool, name: string, v: string, fn: string, rel: Path)
    requires Valid(u) && IsDirAt(u, [DIST_DIR])
    requires IsSegment(fn) && AllSegments(rel)
    ensures BuildCatalog(u, le).Some?
    ensures CatalogLists(BuildCatalog(u, le).value, name, v, Url(name, v, [fn] + rel))
      <==> IsFileAt(u, [DIST_DIR, name, v, fn] + rel) && Listed(Url(name, v, [fn] + rel))
  {
    var p := [fn] + rel;
    assert AllSegments(p) by {
      assert forall i :: 1 <= i < |p| ==> p[i] == rel[i - 1];
    }
    CatalogListsFile(u, le, name, v, p);
    assert [DIST_DIR, name, v] + p == [DIST_DIR, name, v, fn] + rel;
  }

  /** The scope-aware catalog of a tree with a `libs` directory lists the URL
      of `libs/<scope>/<pkg>/<v>/<fn>/rel` under "<scope>/<pkg>" and `v`
      exactly when a file is there and the URL passes the filter. */
  lemma ScopedEntryListed(u: Node, le: (string, string) -> bool,
                          scope: string, pkg: string, v: string, fn: string, rel: Path)
    requires Valid(u) && IsDirAt(u, [DIST_DIR])
    requires IsScope(scope) && '/' !in scope
    requires IsSegment(fn) && AllSegments(rel)
    ensures BuildScopedCatalog(u, le).Some?
    ensures
      var name := scope + "/" + pkg;
      CatalogLists(BuildScopedCatalog(u, le).value, name, v, Url(name, v, [fn] + rel))
      <==> IsFileAt(u, [DIST_DIR, scope, pkg, v, fn] + rel) && Listed(Url(name, v, [fn] + rel))
  {
    var p := [fn] + rel;
    assert AllSegments(p) by {
      assert forall i :: 1 <= i < |p| ==> p[i] == rel[i - 1];
    }
    ScopedListsFile(u, le, scope, pkg, v, p);
    assert [DIST_DIR, scope, pkg, v] + p == [DIST_DIR, scope, pkg, v, fn] + rel;
  }

  /** End to end, for an entry with plain names: once an entry is copied, the
      catalog lists every file of the copy, under the entry's name and the
      package's version, exactly when its URL passes the filter. For a single
      file `rel` is empty; for a directory it is the path inside it. */
  lemma CopiedCatalogued(t: Node, lib: LibSpec, cache: Cache, le: (string, string) -> bool, rel: Path)
    requires Valid(t)
    requires forall n :: n in cache ==> Valid(cache[n].files)
    requires Archive(t, lib, cache).0 == Copied
    requires IsSegment(lib.name) && lib.name != "."
    requires IsSegment(cache[lib.name].version) && cache[lib.name].version != "."
    requires IsSegment(FileName(lib)) && FileName(lib) != "."
    requires AllSegments(rel)
    ensures
      var u := Archive(t, lib, cache).1;
      var v := cache[lib.name].version;
      var url := Url(lib.name, v, [FileName(lib)] + rel);
      && BuildCatalog(u, le).Some?
      && (CatalogLists(BuildCatalog(u, le).value, lib.name, v, url)
          <==> IsFileAt(cache[lib.name].files, SourcePath(lib) + rel) && Listed(url))
  {
    var u := Archive(t, lib, cache).1;
    var v := cache[lib.name].version;
    var fn := FileName(lib);
    DestPathPlain(lib, v);
    CopiedTree(t, lib, cache, rel);
    EntryListed(u, le, lib.name, v, fn, rel);
    assert [DIST_DIR, lib.name, v, fn] + rel == DestPath(lib, v) + rel;
  }

  /** The URL of a file of a scoped package, read with the scope as the library
      and the package as the version, is the URL read the intended way. */
  lemma ScopedUrl(scope: string, pkg: string, v: string, p: Path)
    ensures Url(scope, pkg, [v] + p) == Url(scope + "/" + pkg, v, p)
  {
    assert ([v] + p)[0] == v && ([v] + p)[1..] == p;
  }

  /** build.js's catalog of a tree with a `libs` directory has no library
      "<scope>/<pkg>", and lists the URL of `libs/<scope>/<pkg>/<v>/<fn>/rel`
      under library `scope` and version `pkg`. */
  lemma ScopedEntryMisfiled(u: Node, le: (string, string) -> bool,
                            scope: string, pkg: string, v: string, fn: string, rel: Path)
    requires Valid(u) && IsDirAt(u, [DIST_DIR])
    requires IsSegment(scope) && IsSegment(v) && IsSegment(fn) && AllSegments(rel)
    ensures BuildCatalog(u, le).Some?
    ensures LookupLibrary(BuildCatalog(u, le).value, scope + "/" + pkg) == None
    ensures
      var url := Url(scope + "/" + pkg, v, [fn] + rel);
      && url == Url(scope, pkg, [v, fn] + rel)
      && (CatalogLists(BuildCatalog(u, le).value, scope, pkg, url)
          <==> IsFileAt(u, [DIST_DIR, scope, pkg, v, fn] + rel) && Listed(url))
  {
    assert AllSegments([fn] + rel) by {
      assert forall i :: 1 <= i < |[fn] + rel| ==> ([fn] + rel)[i] == rel[i - 1];
    }
    EntryListed(u, le, scope, pkg, v, [fn] + rel);
    assert [v] + ([fn] + rel) == [v, fn] + rel;
    assert [DIST_DIR, scope, pkg, v] + ([fn] + rel) == [DIST_DIR, scope, pkg, v, fn] + rel;
    ScopedUrl(scope, pkg, v, [fn] + rel);
    assert '/' in scope + "/" + pkg by { assert (scope + "/" + pkg)[|scope|] == '/'; }
    CatalogNamesHaveNoSlash(u, le, scope + "/" + pkg);
  }

  /** As written, a copied entry of a scoped package "@scope/pkg" is not
      catalogued under its own name: the catalog has no library of that name,
      and lists the copy under library "@scope", version "pkg", with the real
      version folded into the file paths. */
  lemma ScopedCopyMislabelled(t: Node, lib: LibSpec, cache: Cache, le: (string, string) -> bool,
                              scope: string, pkg: string, rel: Path)
    requires Valid(t)
    requires forall n :: n in cache ==> Valid(cache[n].files)
    requires Archive(t, lib, cache).0 == Copied
    requires lib.name == scope + "/" + pkg
    requires IsSegment(scope) && scope != "." && IsSegment(pkg) && pkg != "."
    requires IsSegment(cache[lib.name].version) && cache[lib.name].version != "."
    requires IsSegment(FileName(lib)) && FileName(lib) != "."
    requires AllSegments(rel)
    ensures
      var u := Archive(t, lib, cache).1;
      var v := cache[lib.name].version;
      var url := Url(lib.name, v, [FileName(lib)] + rel);
      && BuildCatalog(u, le).Some?
      && LookupLibrary(BuildCatalog(u, le).value, lib.name) == None
      && url == Url(scope, pkg, [v, FileName(lib)] + rel)
      && (CatalogLists(BuildCatalog(u, le).value, scope, pkg, url)
          <==> IsFileAt(cache[lib.name].files, SourcePath(lib) + rel) && Listed(url))
  {
    var u := Archive(t, lib, cache).1;
    var v := cache[lib.name].version;
    var fn := FileName(lib);
    DestPathScoped(lib, scope, pkg, v);
    CopiedTree(t, lib, cache, rel);
    ScopedEntryMisfiled(u, le, scope, pkg, v, fn, rel);
    assert [DIST_DIR, scope, pkg, v, fn] + rel == DestPath(lib, v) + rel;
  }

  /** With scopes expanded, a copied entry of a scoped package is listed
      under its own name and its package's version, exactly when its URL
      passes the filter. */
  lemma ScopedCopyCatalogued(t: Node, lib: LibSpec, cache: Cache, le: (string, string) -> bool,
                             scope: string, pkg: string, rel: Path)
    requires Valid(t)
    requires forall n :: n in cache ==> Valid(cache[n].files)
    requires Archive(t, lib, cache).0 == Copied
    requires lib.name == scope + "/" + pkg
    requires IsScope(scope)
    requires IsSegment(scope) && scope != "." && IsSegment(pkg) && pkg != "."
    requires IsSegment(cache[lib.name].version) && cache[lib.name].version != "."
    requires IsSegment(FileName(lib)) && FileName(lib) != "."
    requires AllSegments(rel)
    ensures
      var u := Archive(t, lib, cache).1;
      var v := cache[lib.name].version;
      var url := Url(lib.name, v, [FileName(lib)] + rel);
      && BuildScopedCatalog(u, le).Some?
      && (CatalogLists(BuildScopedCatalog(u, le).value, lib.name, v, url)
          <==> IsFileAt(cache[lib.name].files, SourcePath(lib) + rel) && Listed(url))
  {
    var u := Archive(t, lib, cache).1;
    var v := cache[lib.name].version;
    var fn := FileName(lib);
    DestPathScoped(lib, scope, pkg, v);
    CopiedTree(t, lib, cache, rel);
    ScopedEntryListed(u, le, scope, pkg, v, fn, rel);
    assert [DIST_DIR, scope, pkg, v, fn] + rel == DestPath(lib, v) + rel;
  }
}
