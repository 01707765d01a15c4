/** Phase A of build.js: every configured library entry is copied out of the
    installed packages into `libs/<name>/<version>/<fileName>`, unless the
    package is missing or that destination already exists. */
module Archiver {
  import opened Paths
  import opened FsTree

  /** One row of the configuration table: the package, the file or directory
      inside it, and an optional name for the copy. */
  datatype LibSpec = LibSpec(name: string, file: string, rename: Option<string>)

  /** An installed package: the version its package.json declares, and its files. */
  datatype Package = Package(version: string, files: Node)

  /** node_modules by package name; a name that is absent has no package.json. */
  type Cache = map<string, Package>

  /** Why the source's uncaught exception ends the run. */
  datatype Failure =
    | ParentBlocked   // ensureDirSync meets a file where a directory is needed
    | SourceMissing   // statSync of the source path throws

  /** What happened to one entry. */
  datatype Outcome = Skipped | AlreadyPresent | Copied | Aborted(reason: Failure)

  /** `lib.rename || path.basename(lib.file)`: an empty rename counts as absent. */
  function FileName(lib: LibSpec): string
  {
    if lib.rename.Some? && lib.rename.value != "" then lib.rename.value else BaseName(lib.file)
  }

  /** `path.join(distDir, lib.name, version, fileName)`, relative to the project directory. */
  function DestPath(lib: LibSpec, version: string): (p: Path)
    ensures |p| >= 1 && p[0] == DIST_DIR && AllSegments(p)
  {
    [DIST_DIR] + Segments(lib.name + "/" + version + "/" + FileName(lib))
  }

  /** `path.join(libDir, lib.file)`, relative to the package directory. */
  function SourcePath(lib: LibSpec): Path
  {
    Segments(lib.file)
  }

  function Parent(p: Path): Path
    requires p != []
  {
    p[..|p| - 1]
  }

  /** One pass of the `targetLibs.forEach` body over the project tree `t`: the
      outcome and the tree afterwards. */
  function Archive(t: Node, lib: LibSpec, cache: Cache): (Outcome, Node)
  {
    if lib.name !in cache then (Skipped, t)
    else
      var pkg := cache[lib.name];
      var dest := DestPath(lib, pkg.version);
      if Stat(t, dest).Some? then (AlreadyPresent, t)
      else
        match EnsureDir(t, Parent(dest))
        case None => (Aborted(ParentBlocked), t)
        case Some(t1) =>
          match At(pkg.files, SourcePath(lib))
          case None => (Aborted(SourceMissing), t1)
          case Some(src) =>
            EnsureDirSpec(t, Parent(dest));
            PlaceableIff(t1, dest);
            (Copied, Put(t1, dest, src))
  }

  /** The whole `forEach`: entries in order; an aborted entry ends the run. The
      flag says whether every entry was handled. */
  function ArchiveAll(t: Node, libs: seq<LibSpec>, cache: Cache): (bool, Node)
    decreases |libs|
  {
    if libs == [] then (true, t)
    else
      var (o, t1) := Archive(t, libs[0], cache);
      if o.Aborted? then (false, t1) else ArchiveAll(t1, libs[1..], cache)
  }

  /** The project directory as the archiver sees it, changed in place. */
  class Store {
    /** The project directory; the archive is its `libs` directory. */
    var root: Node

    constructor (initial: Node)
      ensures root == initial
    {
      root := initial;
    }

    /** One entry of the configuration table. */
    method ArchiveEntry(lib: LibSpec, cache: Cache) returns (outcome: Outcome)
      modifies this
      ensures (outcome, root) == Archive(old(root), lib, cache)
    {
      if lib.name !in cache {
        return Skipped;
      }
      var pkg := cache[lib.name];
      var dest := DestPath(lib, pkg.version);
      if Stat(root, dest).Some? {
        return AlreadyPresent;
      }
      var ensured := EnsureDir(root, Parent(dest));
      if ensured.None? {
        return Aborted(ParentBlocked);
      }
      EnsureDirSpec(root, Parent(dest));
      root := ensured.value;
      var src := At(pkg.files, SourcePath(lib));
      if src.None? {
        return Aborted(SourceMissing);
      }
      PlaceableIff(root, dest);
      root := Put(root, dest, src.value);
      return Copied;
    }

    /** The configuration table, in order; stops at the first aborted entry. */
    method Run(libs: seq<LibSpec>, cache: Cache) returns (completed: bool)
      modifies this
      ensures (completed, root) == ArchiveAll(old(root), libs, cache)
    {
      var i := 0;
      while i < |libs|
        invariant 0 <= i <= |libs|
        invariant ArchiveAll(old(root), libs, cache) == ArchiveAll(root, libs[i..], cache)
      {
        assert libs[i..][0] == libs[i] && libs[i..][1..] == libs[i + 1..];
        var outcome := ArchiveEntry(libs[i], cache);
        if outcome.Aborted? {
          return false;
        }
        i := i + 1;
      }
      return true;
    }
  }

  // ---------------------------------------------------------------------
  // Destination names

  /** A non-empty rename wins; otherwise the copy keeps the base name of the
      source, whether the source is a file or a directory. */
  lemma FileNameSpec(lib: LibSpec, dir: string, base: string)
    ensures lib.rename.Some? && lib.rename.value != "" ==> FileName(lib) == lib.rename.value
    ensures (lib.rename.None? || lib.rename == Some("")) && IsSegment(lib.file)
      ==> FileName(lib) == lib.file
    ensures (lib.rename.None? || lib.rename == Some("")) &&
            lib.file == dir + "/" + base && IsSegment(base)
      ==> FileName(lib) == base
    ensures (lib.rename.None? || lib.rename == Some("")) &&
            lib.file == dir + "/"
      ==> FileName(lib) == BaseName(dir)
  {
    if IsSegment(lib.file) {
      SplitOfSegment(lib.file);
    }
    if lib.file == dir + "/" + base && IsSegment(base) {
      BaseNameOfJoin(dir, base);
    }
    if lib.file == dir + "/" {
      BaseNameTrailingSlash(dir);
    }
  }

  /** The destination is `libs`, then the segments of the package name, of the
      version and of the file name. */
  lemma DestPathLayout(lib: LibSpec, version: string)
    ensures DestPath(lib, version) ==
      [DIST_DIR] + Segments(lib.name) + Segments(version) + Segments(FileName(lib))
  {
    SegmentsAtSlash(lib.name + "/" + version, FileName(lib));
    SegmentsAtSlash(lib.name, version);
  }

  /** For plain names the destination is exactly three levels below `libs`. */
  lemma DestPathPlain(lib: LibSpec, version: string)
    requires IsSegment(lib.name) && lib.name != "."
    requires IsSegment(version) && version != "."
    requires IsSegment(FileName(lib)) && FileName(lib) != "."
    ensures DestPath(lib, version) == [DIST_DIR, lib.name, version, FileName(lib)]
  {
    DestPathLayout(lib, version);
    SegmentsOfSegment(lib.name);
    SegmentsOfSegment(version);
    SegmentsOfSegment(FileName(lib));
  }

  /** A scoped package name such as "@scope/pkg" becomes two directory levels,
      so its destination is four levels below `libs`. */
  lemma DestPathScoped(lib: LibSpec, scope: string, pkg: string, version: string)
    requires lib.name == scope + "/" + pkg
    requires IsSegment(scope) && scope != "." && IsSegment(pkg) && pkg != "."
    requires IsSegment(version) && version != "."
    requires IsSegment(FileName(lib)) && FileName(lib) != "."
    ensures DestPath(lib, version) == [DIST_DIR, scope, pkg, version, FileName(lib)]
  {
    DestPathLayout(lib, version);
    SegmentsAtSlash(scope, pkg);
    SegmentsOfSegment(scope);
    SegmentsOfSegment(pkg);
    SegmentsOfSegment(version);
    SegmentsOfSegment(FileName(lib));
  }

  // ---------------------------------------------------------------------
  // One entry

  /** Which outcome an entry gets, in terms of the package cache and the tree. */
  lemma ArchiveOutcome(t: Node, lib: LibSpec, cache: Cache)
    ensures Archive(t, lib, cache).0 == Skipped <==> lib.name !in cache
    ensures lib.name in cache ==>
      var dest := DestPath(lib, cache[lib.name].version);
      var o := Archive(t, lib, cache).0;
      && (o == AlreadyPresent <==> Stat(t, dest).Some?)
      && (o == Aborted(ParentBlocked) <==>
            Stat(t, dest) == None && exists q :: q < dest && IsFileAt(t, q))
      && (o == Aborted(SourceMissing) <==>
            Stat(t, dest) == None && (forall q :: q < dest ==> !IsFileAt(t, q)) &&
            At(cache[lib.name].files, SourcePath(lib)) == None)
      && (o == Copied <==>
            Stat(t, dest) == None && (forall q :: q < dest ==> !IsFileAt(t, q)) &&
            At(cache[lib.name].files, SourcePath(lib)).Some?)
  {
    if lib.name in cache {
      var dest := DestPath(lib, cache[lib.name].version);
      EnsureDirSpec(t, Parent(dest));
      forall q | IsFileAt(t, q) ensures q < dest <==> q <= Parent(dest) {
        if q <= Parent(dest) || q < dest {
          assert Parent(dest)[..|q|] == dest[..|q|];
        }
      }
    }
  }

  /** Skipping a missing package, finding the destination present, or failing to
      create its parent leaves the tree exactly as it was. */
  lemma ArchiveUnchanged(t: Node, lib: LibSpec, cache: Cache)
    requires Archive(t, lib, cache).0 in {Skipped, AlreadyPresent, Aborted(ParentBlocked)}
    ensures Archive(t, lib, cache).1 == t
  {
  }

  /** A copied entry: the source sits at the destination, every directory
      above it exists, and every path beside it is as before. */
  lemma ArchiveCopies(t: Node, lib: LibSpec, cache: Cache)
    requires Archive(t, lib, cache).0 == Copied
    ensures
      var dest := DestPath(lib, cache[lib.name].version);
      var u := Archive(t, lib, cache).1;
      && At(u, dest) == At(cache[lib.name].files, SourcePath(lib))
      && (forall q :: q < dest ==> IsDirAt(u, q))
      && (forall q :: !(q <= dest) && !(dest <= q) ==> At(u, q) == At(t, q))
  {
    var dest := DestPath(lib, cache[lib.name].version);
    var parent := Parent(dest);
    EnsureDirSpec(t, parent);
    var t1 := EnsureDir(t, parent).value;
    var src := At(cache[lib.name].files, SourcePath(lib)).value;
    PlaceableIff(t1, dest);
    PutSpec(t1, dest, src);
    var u := Archive(t, lib, cache).1;
    assert u == Put(t1, dest, src);
    forall q | !(q <= dest) && !(dest <= q) ensures At(u, q) == At(t, q) {
      assert !(q <= parent);
    }
  }

  /** A copy of a whole directory keeps its layout: every path below the
      source is found at the same place below the destination. */
  lemma ArchiveCopiesSubtree(t: Node, lib: LibSpec, cache: Cache, rel: Path)
    requires Archive(t, lib, cache).0 == Copied
    ensures
      var dest := DestPath(lib, cache[lib.name].version);
      At(Archive(t, lib, cache).1, dest + rel) == At(cache[lib.name].files, SourcePath(lib) + rel)
  {
    var dest := DestPath(lib, cache[lib.name].version);
    var u := Archive(t, lib, cache).1;
    ArchiveCopies(t, lib, cache);
    AtAppend(u, dest, rel);
    AtAppend(cache[lib.name].files, SourcePath(lib), rel);
  }

  /** No entry removes or overwrites anything: whatever existed keeps its kind
      and its bytes. */
  lemma ArchiveExtends(t: Node, lib: LibSpec, cache: Cache)
    ensures Extends(t, Archive(t, lib, cache).1)
  {
    if lib.name in cache {
      var dest := DestPath(lib, cache[lib.name].version);
      if Stat(t, dest) == None && EnsureDir(t, Parent(dest)).Some? {
        var t1 := EnsureDir(t, Parent(dest)).value;
        EnsureDirExtends(t, Parent(dest));
        EnsureDirSpec(t, Parent(dest));
        match At(cache[lib.name].files, SourcePath(lib))
        case None =>
        case Some(src) =>
          PlaceableIff(t1, dest);
          PutExtends(t1, dest, src);
      }
    }
  }

  /** After an entry that did not abort, handling it again on the resulting
      tree, or on any tree that extends it, changes nothing. */
  lemma ArchiveSettled(t: Node, lib: LibSpec, cache: Cache, w: Node)
    requires !Archive(t, lib, cache).0.Aborted?
    requires Extends(Archive(t, lib, cache).1, w)
    ensures Archive(w, lib, cache).1 == w
    ensures !Archive(w, lib, cache).0.Aborted?
  {
    if lib.name in cache {
      var dest := DestPath(lib, cache[lib.name].version);
      var u := Archive(t, lib, cache).1;
      if Archive(t, lib, cache).0 == Copied {
        ArchiveCopies(t, lib, cache);
      }
      assert Stat(u, dest).Some?;
    }
  }

  /** After an aborted entry, handling it again aborts the same way and
      changes nothing more. */
  lemma ArchiveAbortRepeats(t: Node, lib: LibSpec, cache: Cache)
    requires Archive(t, lib, cache).0.Aborted?
    ensures Archive(Archive(t, lib, cache).1, lib, cache) == Archive(t, lib, cache)
  {
    var dest := DestPath(lib, cache[lib.name].version);
    var parent := Parent(dest);
    if Archive(t, lib, cache).0 == Aborted(SourceMissing) {
      EnsureDirSpec(t, parent);
      var u := EnsureDir(t, parent).value;
      assert !(dest <= parent);
      assert At(u, dest) == At(t, dest);
      assert parent <= parent;
      EnsureDirPresent(u, parent);
    }
  }

  /** Running one entry twice leaves the tree that running it once leaves. */
  lemma ArchiveIdempotent(t: Node, lib: LibSpec, cache: Cache)
    ensures Archive(Archive(t, lib, cache).1, lib, cache).1 == Archive(t, lib, cache).1
  {
    if Archive(t, lib, cache).0.Aborted? {
      ArchiveAbortRepeats(t, lib, cache);
    } else {
      ArchiveSettled(t, lib, cache, Archive(t, lib, cache).1);
    }
  }

  /** An entry keeps the tree well formed, given well-formed packages. */
  lemma ArchiveValid(t: Node, lib: LibSpec, cache: Cache)
    requires Valid(t)
    requires forall n :: n in cache ==> Valid(cache[n].files)
    ensures Valid(Archive(t, lib, cache).1)
  {
    if lib.name in cache {
      var dest := DestPath(lib, cache[lib.name].version);
      var pkg := cache[lib.name];
      if Stat(t, dest) == None && EnsureDir(t, Parent(dest)).Some? {
        var t1 := EnsureDir(t, Parent(dest)).value;
        EnsureDirValid(t, Parent(dest));
        EnsureDirSpec(t, Parent(dest));
        match At(pkg.files, SourcePath(lib))
        case None =>
        case Some(src) =>
          AtValid(pkg.files, SourcePath(lib));
          PlaceableIff(t1, dest);
          PutValid(t1, dest, src);
      }
    }
  }

  // ---------------------------------------------------------------------
  // The whole table

  /** The run removes and overwrites nothing. */
  lemma {:induction false} ArchiveAllExtends(t: Node, libs: seq<LibSpec>, cache: Cache)
    ensures Extends(t, ArchiveAll(t, libs, cache).1)
    decreases |libs|
  {
    if libs != [] {
      ArchiveExtends(t, libs[0], cache);
      var (o, t1) := Archive(t, libs[0], cache);
      if !o.Aborted? {
        ArchiveAllExtends(t1, libs[1..], cache);
      }
    }
  }

  /** Re-running the whole table on the tree a run left behind gives the same
      tree and the same completion flag. */
  lemma {:induction false} ArchiveAllIdempotent(t: Node, libs: seq<LibSpec>, cache: Cache)
    ensures ArchiveAll(ArchiveAll(t, libs, cache).1, libs, cache) == ArchiveAll(t, libs, cache)
    decreases |libs|
  {
    if libs != [] {
      var (o, t1) := Archive(t, libs[0], cache);
      var s := ArchiveAll(t, libs, cache).1;
      if o.Aborted? {
        ArchiveAbortRepeats(t, libs[0], cache);
      } else {
        ArchiveAllIdempotent(t1, libs[1..], cache);
        ArchiveAllExtends(t1, libs[1..], cache);
        ArchiveSettled(t, libs[0], cache, s);
      }
    }
  }

  /** A run that skips an entry's package entirely never creates its destination. */
  lemma {:induction false} ArchiveAllSkipsMissing(t: Node, libs: seq<LibSpec>, cache: Cache)
    requires forall i :: 0 <= i < |libs| ==> libs[i].name !in cache
    ensures ArchiveAll(t, libs, cache) == (true, t)
    decreases |libs|
  {
    if libs != [] {
      ArchiveAllSkipsMissing(t, libs[1..], cache);
    }
  }

  /** A run keeps the tree well formed, given well-formed packages. */
  lemma {:induction false} ArchiveAllValid(t: Node, libs: seq<LibSpec>, cache: Cache)
    requires Valid(t)
    requires forall n :: n in cache ==> Valid(cache[n].files)
    ensures Valid(ArchiveAll(t, libs, cache).1)
    decreases |libs|
  {
    if libs != [] {
      ArchiveValid(t, libs[0], cache);
      var (o, t1) := Archive(t, libs[0], cache);
      if !o.Aborted? {
        ArchiveAllValid(t1, libs[1..], cache);
      }
    }
  }
}
