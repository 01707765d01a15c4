/** Phase B of build.js: the catalog read back from the `libs` tree. Every
    top-level directory is a library, every sub-directory of it a version
    (sorted newest first), and every file below a version a URL, after the
    filter that drops source maps and web fonts. */
module Catalog {
  import opened Paths
  import opened FsTree
  import opened Order

  datatype VersionInfo = VersionInfo(version: string, files: seq<string>)

  datatype LibraryInfo = LibraryInfo(name: string, versions: seq<VersionInfo>)

  // ---------------------------------------------------------------------
  // The recursive scan

  /** `scanDir(dir, rootUrl)`: the URL of every file below the listing `es`,
      depth first, in listing order. */
  function ScanDir(es: seq<Entry>, rootUrl: string): seq<string>
    decreases es
  {
    if es == [] then []
    else
      (match es[0].node
       case Dir(sub) => ScanDir(sub, rootUrl + "/" + es[0].name)
       case File(_) => [rootUrl + "/" + es[0].name])
      + ScanDir(es[1..], rootUrl)
  }

  /** The paths of the files below `es`, relative to it, depth first: the
      reference that the scan is measured against. */
  function Leaves(es: seq<Entry>): seq<Path>
    decreases es
  {
    if es == [] then []
    else
      (match es[0].node
       case Dir(sub) => Under(es[0].name, Leaves(sub))
       case File(_) => [[es[0].name]])
      + Leaves(es[1..])
  }

  function Under(x: string, ps: seq<Path>): seq<Path>
  {
    seq(|ps|, i requires 0 <= i < |ps| => [x] + ps[i])
  }

  function Urls(rootUrl: string, ps: seq<Path>): seq<string>
  {
    seq(|ps|, i requires 0 <= i < |ps| => rootUrl + Slashed(ps[i]))
  }

  predicate Distinct<T(==)>(s: seq<T>) {
    forall i, j :: 0 <= i < j < |s| ==> s[i] != s[j]
  }

  // ---------------------------------------------------------------------
  // The filter

  predicate EndsWith(s: string, suffix: string) {
    |suffix| <= |s| && s[|s| - |suffix|..] == suffix
  }

  /** `s.includes(sub)`, scanning from the left. */
  predicate Includes(s: string, sub: string)
    decreases |s|
  {
    if |s| < |sub| then false
    else s[..|sub|] == sub || Includes(s[1..], sub)
  }

  /** build.js:105: a URL stays in the catalog unless it ends in ".map" or
      contains "webfonts/" anywhere, which also catches a directory whose
      name merely ends in "webfonts". */
  predicate Listed(url: string) {
    !EndsWith(url, ".map") && !Includes(url, "webfonts/")
  }

  /** `files.filter(keep)`. */
  function Filter(s: seq<string>, keep: string -> bool): (r: seq<string>)
    ensures |r| <= |s|
    ensures forall x :: x in r <==> x in s && keep(x)
  {
    if s == [] then []
    else (if keep(s[0]) then [s[0]] else []) + Filter(s[1..], keep)
  }

  // ---------------------------------------------------------------------
  // Building the catalog

  /** The URL of a file at relative path `p` below version `ver` of library `name`. */
  function Url(name: string, ver: string, p: Path): string
  {
    "/libs/" + name + "/" + ver + Slashed(p)
  }

  /** `versions.forEach` over the sorted listing of one library directory:
      directories become versions with their filtered files, files are ignored. */
  function VersionList(name: string, vs: seq<Entry>): seq<VersionInfo>
  {
    if vs == [] then []
    else
      (match vs[0].node
       case File(_) => []
       case Dir(fs) =>
         [VersionInfo(vs[0].name, Filter(ScanDir(fs, "/libs/" + name + "/" + vs[0].name), Listed))])
      + VersionList(name, vs[1..])
  }

  /** `readdirSync(distDir).forEach`: directories become libraries, files are
      ignored; each library's listing is sorted newest first by `le`. */
  function LibraryList(es: seq<Entry>, le: (string, string) -> bool): seq<LibraryInfo>
  {
    if es == [] then []
    else
      (match es[0].node
       case File(_) => []
       case Dir(vs) => [LibraryInfo(es[0].name, VersionList(es[0].name, SortDesc(vs, le)))])
      + LibraryList(es[1..], le)
  }

  /** The catalog of the project directory: empty when there is no `libs`,
      None when `libs` is a file (readdirSync throws and nothing is written). */
  function BuildCatalog(project: Node, le: (string, string) -> bool): Option<seq<LibraryInfo>>
  {
    match At(project, [DIST_DIR])
    case None => Some([])
    case Some(File(_)) => None
    case Some(Dir(es)) => Some(LibraryList(es, le))
  }

  /** What a reader of catalog.json finds under a library name (first match). */
  function LookupLibrary(cat: seq<LibraryInfo>, name: string): Option<seq<VersionInfo>>
  {
    if cat == [] then None
    else if cat[0].name == name then Some(cat[0].versions)
    else LookupLibrary(cat[1..], name)
  }

  /** What a reader finds under a version of one library (first match). */
  function LookupVersion(vs: seq<VersionInfo>, ver: string): Option<seq<string>>
  {
    if vs == [] then None
    else if vs[0].version == ver then Some(vs[0].files)
    else LookupVersion(vs[1..], ver)
  }

  /** The catalog lists `url` under version `ver` of one library. */
  predicate VersionLists(vl: seq<VersionInfo>, ver: string, url: string) {
    match LookupVersion(vl, ver)
    case None => false
    case Some(files) => url in files
  }

  /** The catalog lists `url` under version `ver` of library `name`. */
  predicate CatalogLists(cat: seq<LibraryInfo>, name: string, ver: string, url: string) {
    match LookupLibrary(cat, name)
    case None => false
    case Some(vl) => VersionLists(vl, ver, url)
  }

  // ---------------------------------------------------------------------
  // The filter: what it keeps

  /** `sub` occurs in `s` at offset `i`. */
  predicate OccursAt(s: string, sub: string, i: int) {
    0 <= i <= |s| - |sub| && s[i..i + |sub|] == sub
  }

  /** `includes` scanning from the left finds exactly the occurrences at some offset. */
  lemma {:induction false} IncludesIff(s: string, sub: string)
    ensures Includes(s, sub) <==> exists i :: OccursAt(s, sub, i)
    decreases |s|
  {
    if |s| >= |sub| && s != [] {
      IncludesIff(s[1..], sub);
      if Includes(s[1..], sub) {
        var i :| OccursAt(s[1..], sub, i);
        assert s[i + 1..i + 1 + |sub|] == s[1..][i..i + |sub|];
        assert OccursAt(s, sub, i + 1);
      }
      if s[..|sub|] == sub {
        assert OccursAt(s, sub, 0);
      }
      if i :| OccursAt(s, sub, i) {
        if i > 0 {
          assert s[1..][i - 1..i - 1 + |sub|] == s[i..i + |sub|];
          assert OccursAt(s[1..], sub, i - 1);
        } else {
          assert s[..|sub|] == sub;
        }
      }
    } else if |s| >= |sub| {
      assert OccursAt(s, sub, 0);
    } else {
      assert forall i :: !OccursAt(s, sub, i);
    }
  }

  /** Filtering distributes over concatenation, so it keeps the relative order
      of what it keeps. */
  lemma {:induction false} FilterAppend(a: seq<string>, b: seq<string>, keep: string -> bool)
    ensures Filter(a + b, keep) == Filter(a, keep) + Filter(b, keep)
    decreases |a|
  {
    if a == [] {
      assert a + b == b;
    } else {
      assert (a + b)[0] == a[0];
      assert (a + b)[1..] == a[1..] + b;
      FilterAppend(a[1..], b, keep);
    }
  }

  /** Filtering removes nothing the predicate keeps: on a list it keeps
      entirely, it is the identity. */
  lemma {:induction false} FilterAllKept(s: seq<string>, keep: string -> bool)
    requires forall x :: x in s ==> keep(x)
    ensures Filter(s, keep) == s
    decreases |s|
  {
    if s != [] {
      FilterAllKept(s[1..], keep);
      assert s == [s[0]] + s[1..];
    }
  }

  lemma {:induction false} FilterDistinct(s: seq<string>, keep: string -> bool)
    requires Distinct(s)
    ensures Distinct(Filter(s, keep))
    decreases |s|
  {
    if s != [] {
      FilterDistinct(s[1..], keep);
      var r := Filter(s[1..], keep);
      assert s[0] !in s[1..];
      if keep(s[0]) {
        assert s[0] !in r;
        forall i, j | 0 <= i < j < |[s[0]] + r| ensures ([s[0]] + r)[i] != ([s[0]] + r)[j] {
          if i > 0 { assert ([s[0]] + r)[i] == r[i - 1]; }
        }
      }
    }
  }

  /** A listed URL is one that does not end in ".map" and has "webfonts/" at
      no offset. */
  lemma ListedIff(url: string)
    ensures Listed(url) <==>
      !(|url| >= 4 && url[|url| - 4..] == ".map") && forall i :: !OccursAt(url, "webfonts/", i)
  {
    IncludesIff(url, "webfonts/");
  }

  /** A string ends in the last character of each of its suffixes. */
  lemma LastOfSuffix(s: string, suffix: string)
    requires suffix != []
    ensures EndsWith(s, suffix) ==> s[|s| - 1] == suffix[|suffix| - 1]
  {
    if EndsWith(s, suffix) {
      assert s[|s| - |suffix|..][|suffix| - 1] == s[|s| - 1];
    }
  }

  /** A script or a style sheet stays in the catalog unless it contains
      "webfonts/". */
  lemma ScriptListed(url: string)
    requires EndsWith(url, ".js") || EndsWith(url, ".css")
    ensures Listed(url) <==> forall i :: !OccursAt(url, "webfonts/", i)
  {
    LastOfSuffix(url, ".js");
    LastOfSuffix(url, ".css");
    LastOfSuffix(url, ".map");
    IncludesIff(url, "webfonts/");
  }

  /** Every source map is dropped. */
  lemma SourceMapDropped(pre: string)
    ensures !Listed(pre + ".map")
  {
    assert (pre + ".map")[|pre|..] == ".map";
  }

  /** Every URL that contains "webfonts/" is dropped. */
  lemma WebfontDropped(pre: string, post: string)
    ensures !Listed(pre + "webfonts/" + post)
  {
    IncludesInside(pre, "webfonts/", post);
  }

  lemma IncludesInside(pre: string, sub: string, post: string)
    ensures Includes(pre + sub + post, sub)
  {
    var s := pre + sub + post;
    IncludesIff(s, sub);
    assert s[|pre|..|pre| + |sub|] == sub;
    assert OccursAt(s, sub, |pre|);
  }

  // ---------------------------------------------------------------------
  // The scan against its reference

  lemma UrlsAppend(root: string, a: seq<Path>, b: seq<Path>)
    ensures Urls(root, a + b) == Urls(root, a) + Urls(root, b)
  {
  }

  lemma UrlsUnder(root: string, x: string, ps: seq<Path>)
    ensures Urls(root + "/" + x, ps) == Urls(root, Under(x, ps))
  {
    forall i | 0 <= i < |ps|
      ensures (root + "/" + x) + Slashed(ps[i]) == root + Slashed([x] + ps[i])
    {
      assert ([x] + ps[i])[1..] == ps[i];
    }
  }

  /** The scan lists the URL of every file below the directory, each from the
      version's URL root followed by its relative path, in depth-first order. */
  lemma {:induction false} ScanDirIsUrls(es: seq<Entry>, root: string)
    ensures ScanDir(es, root) == Urls(root, Leaves(es))
    decreases es
  {
    if es != [] {
      ScanDirIsUrls(es[1..], root);
      var x := es[0].name;
      match es[0].node
      case Dir(sub) =>
        ScanDirIsUrls(sub, root + "/" + x);
        UrlsUnder(root, x, Leaves(sub));
        UrlsAppend(root, Under(x, Leaves(sub)), Leaves(es[1..]));
      case File(_) =>
        assert [x][1..] == [];
        assert Slashed([x]) == "/" + x;
        assert Urls(root, [[x]])[0] == root + "/" + x;
        UrlsAppend(root, [[x]], Leaves(es[1..]));
    }
  }

  /** A path is among the leaves exactly when a file, not a directory, is there. */
  lemma {:induction false} LeavesExact(es: seq<Entry>, p: Path)
    requires Valid(Dir(es))
    ensures p in Leaves(es) <==> IsFileAt(Dir(es), p)
    decreases es
  {
    if es == [] {
      assert p == [] || At(Dir(es), p) == None;
    } else {
      var e := es[0];
      ValidTail(es);
      LeavesExact(es[1..], p);
      if p == [] {
        LeavesNonEmpty(es);
      } else if p[0] == e.name {
        assert Find(es[1..], p[0]) == |es[1..]|;
        assert At(Dir(es[1..]), p) == None;
        assert Valid(e.node);
        match e.node {
          case File(_) =>
          case Dir(sub) => LeavesExact(sub, p[1..]);
        }
        LeavesExactFirst(es, p);
      } else {
        LeavesExactRest(es, p);
      }
    }
  }

  /** A path through the first entry is a leaf exactly when it is one below
      that entry. */
  lemma LeavesExactFirst(es: seq<Entry>, p: Path)
    requires es != [] && p != [] && p[0] == es[0].name
    requires UniqueNames(es)
    requires p !in Leaves(es[1..])
    requires es[0].node.Dir? ==>
      (p[1..] in Leaves(es[0].node.entries) <==> IsFileAt(es[0].node, p[1..]))
    ensures p in Leaves(es) <==> IsFileAt(Dir(es), p)
  {
    var e := es[0];
    var head := match e.node case Dir(sub) => Under(e.name, Leaves(sub)) case File(_) => [[e.name]];
    assert Leaves(es) == head + Leaves(es[1..]);
    assert Find(es, p[0]) == 0;
    assert At(Dir(es), p) == At(e.node, p[1..]);
    match e.node
    case File(_) =>
      assert p in head <==> p == [e.name];
    case Dir(sub) =>
      assert p in head <==> p[1..] in Leaves(sub) by {
        if p[1..] in Leaves(sub) {
          var k :| 0 <= k < |Leaves(sub)| && Leaves(sub)[k] == p[1..];
          assert head[k] == p;
        }
      }
  }

  /** A path that avoids the first entry is a leaf exactly when it is one of
      the remaining entries. */
  lemma LeavesExactRest(es: seq<Entry>, p: Path)
    requires es != [] && p != [] && p[0] != es[0].name
    requires p in Leaves(es[1..]) <==> IsFileAt(Dir(es[1..]), p)
    ensures p in Leaves(es) <==> IsFileAt(Dir(es), p)
  {
    var e := es[0];
    var head := match e.node case Dir(sub) => Under(e.name, Leaves(sub)) case File(_) => [[e.name]];
    assert Leaves(es) == head + Leaves(es[1..]);
    assert Find(es, p[0]) == 1 + Find(es[1..], p[0]);
    assert At(Dir(es), p) == At(Dir(es[1..]), p);
    assert p !in head;
  }

  lemma {:induction false} LeavesNonEmpty(es: seq<Entry>)
    ensures forall p :: p in Leaves(es) ==> p != []
    decreases es
  {
    if es != [] {
      LeavesNonEmpty(es[1..]);
    }
  }


  lemma ValidTail(es: seq<Entry>)
    requires es != [] && Valid(Dir(es))
    ensures Valid(Dir(es[1..]))
  {
    assert forall i :: 0 <= i < |es[1..]| ==> es[1..][i] == es[i + 1];
  }

  /** Every leaf path is made of entry names, hence of segments. */
  lemma {:induction false} LeavesSegments(es: seq<Entry>)
    requires Valid(Dir(es))
    ensures forall p :: p in Leaves(es) ==> AllSegments(p)
    decreases es
  {
    if es != [] {
      ValidTail(es);
      LeavesSegments(es[1..]);
      var x := es[0].name;
      assert IsSegment(x) && Valid(es[0].node);
      match es[0].node
      case Dir(sub) =>
        LeavesSegments(sub);
        UnderSegments(x, Leaves(sub));
        assert Leaves(es) == Under(x, Leaves(sub)) + Leaves(es[1..]);
      case File(_) =>
    }
  }

  /** Putting a segment in front of segment paths gives segment paths. */
  lemma UnderSegments(x: string, ps: seq<Path>)
    requires IsSegment(x)
    requires forall p :: p in ps ==> AllSegments(p)
    ensures forall p :: p in Under(x, ps) ==> AllSegments(p)
  {
    forall p | p in Under(x, ps) ensures AllSegments(p) {
      var k :| 0 <= k < |ps| && Under(x, ps)[k] == p;
      assert p == [x] + ps[k];
      assert AllSegments(ps[k]);
      forall i | 0 <= i < |p| ensures IsSegment(p[i]) {
        if i > 0 { assert p[i] == ps[k][i - 1]; }
      }
    }
  }

  /** Every leaf starts with the name of one of the entries. */
  lemma {:induction false} LeavesHeads(es: seq<Entry>)
    ensures forall p :: p in Leaves(es) ==> p != [] && exists k :: 0 <= k < |es| && es[k].name == p[0]
    decreases es
  {
    if es != [] {
      LeavesHeads(es[1..]);
      forall p | p in Leaves(es[1..]) ensures exists k :: 0 <= k < |es| && es[k].name == p[0] {
        var k :| 0 <= k < |es[1..]| && es[1..][k].name == p[0];
        assert es[k + 1].name == p[0];
      }
    }
  }

  lemma DistinctAppend<T>(a: seq<T>, b: seq<T>)
    requires Distinct(a) && Distinct(b)
    requires forall x :: x in a ==> x !in b
    ensures Distinct(a + b)
  {
    forall i, j | 0 <= i < j < |a + b| ensures (a + b)[i] != (a + b)[j] {
      if i < |a| && j >= |a| {
        assert (a + b)[i] in a && (a + b)[j] == b[j - |a|];
      }
    }
  }

  /** In a well-formed tree every file is listed once. */
  lemma {:induction false} LeavesDistinct(es: seq<Entry>)
    requires Valid(Dir(es))
    ensures Distinct(Leaves(es))
    decreases es
  {
    if es != [] {
      var e := es[0];
      var rest := es[1..];
      ValidTail(es);
      LeavesDistinct(rest);
      LeavesHeads(rest);
      var head := match e.node case Dir(sub) => Under(e.name, Leaves(sub)) case File(_) => [[e.name]];
      match e.node {
        case Dir(sub) =>
          LeavesDistinct(sub);
          forall i, j | 0 <= i < j < |head| ensures head[i] != head[j] {
            assert head[i][1..] == Leaves(sub)[i] && head[j][1..] == Leaves(sub)[j];
          }
        case File(_) =>
      }
      forall p | p in head ensures p !in Leaves(rest) {
        var i :| 0 <= i < |head| && head[i] == p;
        assert p[0] == e.name;
        forall k | 0 <= k < |rest| ensures rest[k].name != p[0] {
          assert rest[k] == es[k + 1];
        }
      }
      DistinctAppend(head, Leaves(rest));
    }
  }

  /** Different relative paths give different URLs. */
  lemma UrlInjective(root: string, p: Path, q: Path)
    requires AllSegments(p) && AllSegments(q)
    requires root + Slashed(p) == root + Slashed(q)
    ensures p == q
  {
    assert Slashed(p) == Slashed(q) by {
      assert Slashed(p) == (root + Slashed(p))[|root|..];
      assert Slashed(q) == (root + Slashed(q))[|root|..];
    }
    SplitSlashed("", p);
    SplitSlashed("", q);
    assert "" + Slashed(p) == Slashed(p);
    assert "" + Slashed(q) == Slashed(q);
    assert p == ([""] + p)[1..];
    assert q == ([""] + q)[1..];
  }

  lemma UrlsDistinct(root: string, ps: seq<Path>)
    requires Distinct(ps)
    requires forall p :: p in ps ==> AllSegments(p)
    ensures Distinct(Urls(root, ps))
  {
    forall i, j | 0 <= i < j < |ps| ensures Urls(root, ps)[i] != Urls(root, ps)[j] {
      if Urls(root, ps)[i] == Urls(root, ps)[j] {
        UrlInjective(root, ps[i], ps[j]);
      }
    }
  }

  /** Before filtering, the scan of a version directory lists the URL of
      every file below it exactly once, and nothing for a directory. */
  lemma ScanDirExact(fs: seq<Entry>, root: string)
    requires Valid(Dir(fs))
    ensures forall u :: u in ScanDir(fs, root) <==>
      exists p :: IsFileAt(Dir(fs), p) && u == root + Slashed(p)
    ensures Distinct(ScanDir(fs, root))
  {
    ScanDirIsUrls(fs, root);
    var ps := Leaves(fs);
    LeavesSegments(fs);
    LeavesDistinct(fs);
    UrlsDistinct(root, ps);
    forall u ensures u in Urls(root, ps) <==> exists p :: IsFileAt(Dir(fs), p) && u == root + Slashed(p) {
      if u in Urls(root, ps) {
        var k :| 0 <= k < |ps| && Urls(root, ps)[k] == u;
        LeavesExact(fs, ps[k]);
      }
      if p :| IsFileAt(Dir(fs), p) && u == root + Slashed(p) {
        LeavesExact(fs, p);
        var k :| 0 <= k < |ps| && ps[k] == p;
        assert Urls(root, ps)[k] == u;
      }
    }
  }

  /** The files of one version directory: exactly the URLs of the files
      below it that pass the filter, each once. */
  lemma VersionFiles(fs: seq<Entry>, root: string)
    requires Valid(Dir(fs))
    ensures forall u :: u in Filter(ScanDir(fs, root), Listed) <==>
      Listed(u) && exists p :: IsFileAt(Dir(fs), p) && u == root + Slashed(p)
    ensures Distinct(Filter(ScanDir(fs, root), Listed))
  {
    ScanDirExact(fs, root);
    FilterDistinct(ScanDir(fs, root), Listed);
  }

  /** The file at relative path `p` of a version directory is listed, under
      its URL, exactly when it is a file and passes the filter. */
  lemma FileListed(fs: seq<Entry>, name: string, ver: string, p: Path)
    requires Valid(Dir(fs))
    requires AllSegments(p)
    ensures Url(name, ver, p) in Filter(ScanDir(fs, "/libs/" + name + "/" + ver), Listed)
      <==> IsFileAt(Dir(fs), p) && Listed(Url(name, ver, p))
  {
    var root := "/libs/" + name + "/" + ver;
    VersionFiles(fs, root);
    assert Url(name, ver, p) == root + Slashed(p);
    if Url(name, ver, p) in Filter(ScanDir(fs, root), Listed) {
      var q :| IsFileAt(Dir(fs), q) && Url(name, ver, p) == root + Slashed(q);
      LeavesExact(fs, q);
      LeavesSegments(fs);
      UrlInjective(root, p, q);
    }
  }

  // ---------------------------------------------------------------------
  // Libraries and versions against the tree

  /** A version name is found in a listing exactly when the tree has a
      directory of that name there; the files are that directory's scan. */
  lemma {:induction false} VersionListLookup(name: string, vs: seq<Entry>, ver: string)
    requires UniqueNames(vs)
    ensures LookupVersion(VersionList(name, vs), ver) ==
      match At(Dir(vs), [ver])
      case Some(Dir(fs)) => Some(Filter(ScanDir(fs, "/libs/" + name + "/" + ver), Listed))
      case _ => None
    decreases vs
  {
    if vs != [] {
      var rest := vs[1..];
      assert UniqueNames(rest);
      VersionListLookup(name, rest, ver);
      if vs[0].name == ver {
        assert Find(vs, ver) == 0;
        assert At(Dir(vs), [ver]) == Some(vs[0].node);
        assert Find(rest, ver) == |rest|;
        assert At(Dir(rest), [ver]) == None;
        match vs[0].node
        case File(_) =>
          assert VersionList(name, vs) == VersionList(name, rest);
        case Dir(fs) =>
      } else {
        assert Find(vs, ver) == 1 + Find(rest, ver);
        assert At(Dir(vs), [ver]) == At(Dir(rest), [ver]);
        match vs[0].node
        case File(_) =>
          assert VersionList(name, vs) == VersionList(name, rest);
        case Dir(fs) =>
      }
    }
  }

  /** A library name is found in the catalog exactly when `libs` has a
      directory of that name; its versions are the version list of its sorted
      listing. */
  lemma {:induction false} LibraryListLookup(es: seq<Entry>, le: (string, string) -> bool, name: string)
    requires UniqueNames(es)
    ensures LookupLibrary(LibraryList(es, le), name) ==
      match At(Dir(es), [name])
      case Some(Dir(vs)) => Some(VersionList(name, SortDesc(vs, le)))
      case _ => None
    decreases es
  {
    if es != [] {
      var rest := es[1..];
      assert UniqueNames(rest);
      LibraryListLookup(rest, le, name);
      if es[0].name == name {
        assert Find(es, name) == 0;
        assert At(Dir(es), [name]) == Some(es[0].node);
        assert Find(rest, name) == |rest|;
        assert At(Dir(rest), [name]) == None;
        match es[0].node
        case File(_) =>
          assert LibraryList(es, le) == LibraryList(rest, le);
        case Dir(vs) =>
      } else {
        assert Find(es, name) == 1 + Find(rest, name);
        assert At(Dir(es), [name]) == At(Dir(rest), [name]);
        match es[0].node
        case File(_) =>
          assert LibraryList(es, le) == LibraryList(rest, le);
        case Dir(vs) =>
      }
    }
  }

  /** In a listing with distinct names the child called `x` is the entry called `x`. */
  lemma ChildByMembership(es: seq<Entry>, x: string)
    requires UniqueNames(es)
    ensures forall n :: At(Dir(es), [x]) == Some(n) <==> Entry(x, n) in es
  {
    var i := Find(es, x);
    forall n ensures At(Dir(es), [x]) == Some(n) <==> Entry(x, n) in es {
      if Entry(x, n) in es {
        var k :| 0 <= k < |es| && es[k] == Entry(x, n);
        assert k == i;
      }
    }
  }

  /** Sorting a listing with distinct names changes no lookup by name. */
  lemma SortedLookup(vs: seq<Entry>, le: (string, string) -> bool, ver: string)
    requires UniqueNames(vs)
    ensures UniqueNames(SortDesc(vs, le))
    ensures At(Dir(SortDesc(vs, le)), [ver]) == At(Dir(vs), [ver])
  {
    SortDescUnique(vs, le);
    SortDescPermutes(vs, le);
    var ws := SortDesc(vs, le);
    ChildByMembership(vs, ver);
    ChildByMembership(ws, ver);
    forall e ensures e in vs <==> e in ws {
      assert e in vs <==> e in multiset(vs);
      assert e in ws <==> e in multiset(ws);
    }
  }

  // ---------------------------------------------------------------------
  // The whole catalog against the tree

  /** One library: the URL of `p` below version `ver` is listed exactly when
      `ver/p` is a file of the library directory and passes the filter. */
  lemma VersionsList(name: string, vs: seq<Entry>, le: (string, string) -> bool, ver: string, p: Path)
    requires Valid(Dir(vs))
    requires AllSegments(p) && p != []
    ensures VersionLists(VersionList(name, SortDesc(vs, le)), ver, Url(name, ver, p))
      <==> IsFileAt(Dir(vs), [ver] + p) && Listed(Url(name, ver, p))
  {
    SortedLookup(vs, le, ver);
    VersionListLookup(name, SortDesc(vs, le), ver);
    AtAppend(Dir(vs), [ver], p);
    match At(Dir(vs), [ver]) {
      case None =>
      case Some(File(d)) =>
        assert At(File(d), p) == None;
      case Some(Dir(fs)) =>
        AtValid(Dir(vs), [ver]);
        FileListed(fs, name, ver, p);
    }
  }

  /** All libraries: the URL of `p` below `name`/`ver` is listed exactly when
      `name/ver/p` is a file below `libs` and passes the filter. */
  lemma LibrariesList(es: seq<Entry>, le: (string, string) -> bool, name: string, ver: string, p: Path)
    requires Valid(Dir(es))
    requires AllSegments(p) && p != []
    ensures CatalogLists(LibraryList(es, le), name, ver, Url(name, ver, p))
      <==> IsFileAt(Dir(es), [name, ver] + p) && Listed(Url(name, ver, p))
  {
    LibraryListLookup(es, le, name);
    AtAppend(Dir(es), [name], [ver] + p);
    assert [name] + ([ver] + p) == [name, ver] + p;
    match At(Dir(es), [name]) {
      case None =>
      case Some(File(d)) =>
        assert At(File(d), [ver] + p) == None;
      case Some(Dir(vs)) =>
        AtValid(Dir(es), [name]);
        VersionsList(name, vs, le, ver, p);
    }
  }

  /** The catalog of a well-formed project lists the URL of `p` under library
      `name` and version `ver` exactly when `libs/name/ver/p` is a file and the
      URL passes the filter; it fails only when `libs` is a file. */
  lemma CatalogListsFile(project: Node, le: (string, string) -> bool,
                         name: string, ver: string, p: Path)
    requires Valid(project)
    requires AllSegments(p) && p != []
    ensures BuildCatalog(project, le).Some? <==> !IsFileAt(project, [DIST_DIR])
    ensures BuildCatalog(project, le).Some? ==>
      (CatalogLists(BuildCatalog(project, le).value, name, ver, Url(name, ver, p))
       <==> IsFileAt(project, [DIST_DIR, name, ver] + p) && Listed(Url(name, ver, p)))
  {
    AtAppend(project, [DIST_DIR], [name, ver] + p);
    assert [DIST_DIR] + ([name, ver] + p) == [DIST_DIR, name, ver] + p;
    match At(project, [DIST_DIR]) {
      case None =>
      case Some(File(_)) =>
      case Some(Dir(es)) =>
        AtValid(project, [DIST_DIR]);
        LibrariesList(es, le, name, ver, p);
    }
  }

  /** Every directory below `libs` is a library of the catalog, even one with
      no versions, and nothing else is; the versions of a library are exactly
      its sub-directories; and each library and each version appears once. */
  lemma CatalogShape(project: Node, le: (string, string) -> bool, name: string, ver: string)
    requires Valid(project)
    requires IsDirAt(project, [DIST_DIR])
    ensures BuildCatalog(project, le).Some?
    ensures LookupLibrary(BuildCatalog(project, le).value, name).Some? <==> IsDirAt(project, [DIST_DIR, name])
    ensures LookupLibrary(BuildCatalog(project, le).value, name).Some? ==>
      (LookupVersion(LookupLibrary(BuildCatalog(project, le).value, name).value, ver).Some?
       <==> IsDirAt(project, [DIST_DIR, name, ver]))
    ensures DistinctLibraries(BuildCatalog(project, le).value)
    ensures forall l :: l in BuildCatalog(project, le).value ==> DistinctVersions(l.versions)
  {
    CatalogNamesDistinct(project, le);
    var es := At(project, [DIST_DIR]).value.entries;
    AtValid(project, [DIST_DIR]);
    LibraryListLookup(es, le, name);
    AtAppend(project, [DIST_DIR], [name]);
    AtAppend(project, [DIST_DIR], [name, ver]);
    AtAppend(Dir(es), [name], [ver]);
    assert [name] + [ver] == [name, ver];
    match At(Dir(es), [name]) {
      case None =>
      case Some(File(_)) =>
      case Some(Dir(vs)) =>
        AtValid(Dir(es), [name]);
        SortedLookup(vs, le, ver);
        VersionListLookup(name, SortDesc(vs, le), ver);
    }
  }

  /** The versions of a version list are names of directories of the listing,
      in listing order. */
  lemma {:induction false} VersionListFrom(name: string, vs: seq<Entry>)
    ensures forall v :: v in VersionList(name, vs) ==> exists k :: 0 <= k < |vs| && vs[k].name == v.version
    decreases vs
  {
    if vs != [] {
      VersionListFrom(name, vs[1..]);
      forall v | v in VersionList(name, vs[1..]) ensures exists k :: 0 <= k < |vs| && vs[k].name == v.version {
        var k :| 0 <= k < |vs[1..]| && vs[1..][k].name == v.version;
        assert vs[k + 1].name == v.version;
      }
    }
  }

  /** A library's versions keep the order of its sorted listing. */
  lemma {:induction false} VersionListSorted(name: string, vs: seq<Entry>, le: (string, string) -> bool)
    requires SortedDesc(vs, le)
    ensures forall i, j :: 0 <= i < j < |VersionList(name, vs)| ==>
      le(VersionList(name, vs)[j].version, VersionList(name, vs)[i].version)
    decreases vs
  {
    if vs != [] {
      var rest := vs[1..];
      assert SortedDesc(rest, le);
      VersionListSorted(name, rest, le);
      VersionListFrom(name, rest);
      var tail := VersionList(name, rest);
      match vs[0].node
      case File(_) =>
        assert VersionList(name, vs) == tail;
      case Dir(_) =>
        var r := VersionList(name, vs);
        assert r[1..] == tail && r[0].version == vs[0].name;
        forall j | 1 <= j < |r| ensures le(r[j].version, r[0].version) {
          assert r[j] in tail;
          var k :| 0 <= k < |rest| && rest[k].name == r[j].version;
          assert rest[k] == vs[k + 1];
        }
    }
  }

  /** With a total preorder, every library in the catalog lists its versions
      newest first. */
  lemma CatalogVersionsSorted(es: seq<Entry>, le: (string, string) -> bool, lib: LibraryInfo)
    requires TotalPreorder(le)
    requires lib in LibraryList(es, le)
    ensures forall i, j :: 0 <= i < j < |lib.versions| ==> le(lib.versions[j].version, lib.versions[i].version)
  {
    var k := LibraryFrom(es, le, lib);
    var vs := es[k].node.entries;
    SortDescSorted(vs, le);
    VersionListSorted(lib.name, SortDesc(vs, le), le);
  }

  /** Each library of the catalog comes from a directory of the listing. */
  lemma {:induction false} LibraryFrom(es: seq<Entry>, le: (string, string) -> bool, lib: LibraryInfo) returns (k: nat)
    requires lib in LibraryList(es, le)
    ensures k < |es| && es[k].node.Dir? && es[k].name == lib.name
    ensures lib.versions == VersionList(lib.name, SortDesc(es[k].node.entries, le))
    decreases es
  {
    if es[0].node.Dir? && lib == LibraryList(es, le)[0] {
      k := 0;
    } else {
      assert lib in LibraryList(es[1..], le);
      var k' := LibraryFrom(es[1..], le, lib);
      k := k' + 1;
    }
  }

  /** No library name appears twice in a catalog. */
  predicate DistinctLibraries(cat: seq<LibraryInfo>) {
    forall i, j :: 0 <= i < j < |cat| ==> cat[i].name != cat[j].name
  }

  /** No version name appears twice under a library. */
  predicate DistinctVersions(vs: seq<VersionInfo>) {
    forall i, j :: 0 <= i < j < |vs| ==> vs[i].version != vs[j].version
  }

  /** A listing with distinct names gives one library per directory. */
  lemma {:induction false} LibraryNamesDistinct(es: seq<Entry>, le: (string, string) -> bool)
    requires UniqueNames(es)
    ensures DistinctLibraries(LibraryList(es, le))
    decreases es
  {
    if es != [] {
      var rest := es[1..];
      assert UniqueNames(rest);
      LibraryNamesDistinct(rest, le);
      var tail := LibraryList(rest, le);
      forall l | l in tail ensures l.name != es[0].name {
        var k := LibraryFrom(rest, le, l);
        assert rest[k] == es[k + 1];
      }
      match es[0].node {
        case File(_) =>
          assert LibraryList(es, le) == tail;
        case Dir(vs) =>
          var r := LibraryList(es, le);
          assert r == [LibraryInfo(es[0].name, VersionList(es[0].name, SortDesc(vs, le)))] + tail;
          forall i, j | 0 <= i < j < |r| ensures r[i].name != r[j].name {
            assert r[j] == tail[j - 1] && r[j] in tail;
            if i > 0 {
              assert r[i] == tail[i - 1];
            }
          }
      }
    }
  }

  /** A listing with distinct names gives one version per directory. */
  lemma {:induction false} VersionNamesDistinct(name: string, vs: seq<Entry>)
    requires UniqueNames(vs)
    ensures DistinctVersions(VersionList(name, vs))
    decreases vs
  {
    if vs != [] {
      var rest := vs[1..];
      assert UniqueNames(rest);
      VersionNamesDistinct(name, rest);
      VersionListFrom(name, rest);
      var tail := VersionList(name, rest);
      forall v | v in tail ensures v.version != vs[0].name {
        var k :| 0 <= k < |rest| && rest[k].name == v.version;
        assert rest[k] == vs[k + 1];
      }
      match vs[0].node {
        case File(_) =>
          assert VersionList(name, vs) == tail;
        case Dir(fs) =>
          var r := VersionList(name, vs);
          assert r[1..] == tail;
          assert r[0].version == vs[0].name;
          forall i, j | 0 <= i < j < |r| ensures r[i].version != r[j].version {
            assert r[j] == tail[j - 1] && r[j] in tail;
            if i > 0 {
              assert r[i] == tail[i - 1];
            }
          }
      }
    }
  }

  /** In a well-formed tree the catalog has one entry per library directory
      and, under each library, one entry per version directory. */
  lemma CatalogNamesDistinct(project: Node, le: (string, string) -> bool)
    requires Valid(project)
    requires BuildCatalog(project, le).Some?
    ensures DistinctLibraries(BuildCatalog(project, le).value)
    ensures forall l :: l in BuildCatalog(project, le).value ==> DistinctVersions(l.versions)
  {
    match At(project, [DIST_DIR]) {
      case None =>
      case Some(File(_)) =>
      case Some(Dir(es)) =>
        AtValid(project, [DIST_DIR]);
        LibraryNamesDistinct(es, le);
        forall l | l in LibraryList(es, le) ensures DistinctVersions(l.versions) {
          var k := LibraryFrom(es, le, l);
          var vs := es[k].node.entries;
          assert Valid(es[k].node);
          SortDescUnique(vs, le);
          VersionNamesDistinct(l.name, SortDesc(vs, le));
        }
    }
  }
}
