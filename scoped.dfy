/** A catalog that knows about scoped package names. build.js archives
    "@scope/pkg" at `libs/@scope/pkg/<version>/`, two directory levels, but
    its catalog takes every top-level directory for a library; this version
    takes a top-level directory whose name starts with '@' for a scope and
    each of its sub-directories for one library called "@scope/pkg". */
module ScopedCatalog {
  import opened Paths
  import opened FsTree
  import opened Order
  import opened Catalog

  /** npm scope directories are named "@scope". */
  predicate IsScope(name: string) {
    |name| > 0 && name[0] == '@'
  }

  /** The libraries of one scope directory, in listing order. */
  function ScopeMembers(scope: string, ps: seq<Entry>, le: (string, string) -> bool): seq<LibraryInfo>
  {
    if ps == [] then []
    else
      (match ps[0].node
       case File(_) => []
       case Dir(vs) =>
         var name := scope + "/" + ps[0].name;
         [LibraryInfo(name, VersionList(name, SortDesc(vs, le)))])
      + ScopeMembers(scope, ps[1..], le)
  }

  /** The catalog's library list with scopes expanded. */
  function ScopedLibraryList(es: seq<Entry>, le: (string, string) -> bool): seq<LibraryInfo>
  {
    if es == [] then []
    else
      (match es[0].node
       case File(_) => []
       case Dir(vs) =>
         if IsScope(es[0].name) then ScopeMembers(es[0].name, vs, le)
         else [LibraryInfo(es[0].name, VersionList(es[0].name, SortDesc(vs, le)))])
      + ScopedLibraryList(es[1..], le)
  }

  /** The corrected catalog of the project directory. */
  function BuildScopedCatalog(project: Node, le: (string, string) -> bool): Option<seq<LibraryInfo>>
  {
    match At(project, [DIST_DIR])
    case None => Some([])
    case Some(File(_)) => None
    case Some(Dir(es)) => Some(ScopedLibraryList(es, le))
  }

  // ---------------------------------------------------------------------
  // Names

  /** The part before the first '/' determines a "scope/pkg" name. */
  lemma ScopeOfName(a: string, x: string, b: string, y: string)
    requires '/' !in a && '/' !in b
    requires a + "/" + x == b + "/" + y
    ensures a == b && x == y
  {
    var parts := SplitOn(a + "/" + x);
    SplitAtSlash(a, x);
    SplitAtSlash(b, y);
    SplitOfSegment(a);
    SplitOfSegment(b);
    assert parts[0] == a && parts[0] == b;
    assert SplitOn(x) == parts[1..] == SplitOn(y);
    JoinSplit(x);
    JoinSplit(y);
  }

  lemma LookupAppend(a: seq<LibraryInfo>, b: seq<LibraryInfo>, name: string)
    ensures LookupLibrary(a + b, name) ==
      if LookupLibrary(a, name).Some? then LookupLibrary(a, name) else LookupLibrary(b, name)
  {
    if a == [] {
      assert a + b == b;
    } else {
      assert (a + b)[0] == a[0];
      assert (a + b)[1..] == a[1..] + b;
      LookupAppend(a[1..], b, name);
    }
  }

  lemma {:induction false} LookupAbsent(cat: seq<LibraryInfo>, name: string)
    requires forall l :: l in cat ==> l.name != name
    ensures LookupLibrary(cat, name) == None
    decreases |cat|
  {
    if cat != [] {
      LookupAbsent(cat[1..], name);
    }
  }

  /** Every library of a scope is called "<scope>/<entry name>". */
  lemma {:induction false} MemberNames(scope: string, ps: seq<Entry>, le: (string, string) -> bool)
    ensures forall l :: l in ScopeMembers(scope, ps, le) ==>
      exists k :: 0 <= k < |ps| && l.name == scope + "/" + ps[k].name
    decreases |ps|
  {
    if ps != [] {
      MemberNames(scope, ps[1..], le);
      forall l | l in ScopeMembers(scope, ps[1..], le)
        ensures exists k :: 0 <= k < |ps| && l.name == scope + "/" + ps[k].name
      {
        var k :| 0 <= k < |ps[1..]| && l.name == scope + "/" + ps[1..][k].name;
        assert ps[k + 1] == ps[1..][k];
      }
    }
  }

  // ---------------------------------------------------------------------
  // Lookups against the tree

  /** Within one scope, "<scope>/<pkg>" is found exactly when the scope
      directory has a sub-directory `pkg`. */
  lemma {:induction false} MembersLookup(scope: string, ps: seq<Entry>, le: (string, string) -> bool, pkg: string)
    requires '/' !in scope
    requires Valid(Dir(ps))
    ensures LookupLibrary(ScopeMembers(scope, ps, le), scope + "/" + pkg) ==
      match At(Dir(ps), [pkg])
      case Some(Dir(vs)) => Some(VersionList(scope + "/" + pkg, SortDesc(vs, le)))
      case _ => None
    decreases |ps|
  {
    if ps != [] {
      var rest := ps[1..];
      ValidTail(ps);
      MembersLookup(scope, rest, le, pkg);
      var head := match ps[0].node
        case File(_) => []
        case Dir(vs) => [LibraryInfo(scope + "/" + ps[0].name, VersionList(scope + "/" + ps[0].name, SortDesc(vs, le)))];
      assert ScopeMembers(scope, ps, le) == head + ScopeMembers(scope, rest, le);
      LookupAppend(head, ScopeMembers(scope, rest, le), scope + "/" + pkg);
      if ps[0].name == pkg {
        assert Find(ps, pkg) == 0;
        assert At(Dir(ps), [pkg]) == Some(ps[0].node);
        assert Find(rest, pkg) == |rest|;
        assert At(Dir(rest), [pkg]) == None;
      } else {
        assert Find(ps, pkg) == 1 + Find(rest, pkg);
        assert At(Dir(ps), [pkg]) == At(Dir(rest), [pkg]);
        if ps[0].node.Dir? {
          if scope + "/" + ps[0].name == scope + "/" + pkg {
            ScopeOfName(scope, ps[0].name, scope, pkg);
          }
        }
      }
    }
  }

  /** A scoped name "<scope>/<pkg>" is found exactly when `libs/<scope>/<pkg>`
      is a directory; its versions are that directory's sub-directories. */
  lemma {:induction false} ScopedLookup(es: seq<Entry>, le: (string, string) -> bool, scope: string, pkg: string)
    requires Valid(Dir(es))
    requires IsScope(scope) && '/' !in scope
    ensures LookupLibrary(ScopedLibraryList(es, le), scope + "/" + pkg) ==
      match At(Dir(es), [scope, pkg])
      case Some(Dir(vs)) => Some(VersionList(scope + "/" + pkg, SortDesc(vs, le)))
      case _ => None
    decreases |es|
  {
    if es != [] {
      var rest := es[1..];
      var e := es[0];
      var name := scope + "/" + pkg;
      ValidTail(es);
      ScopedLookup(rest, le, scope, pkg);
      var head := match e.node
        case File(_) => []
        case Dir(vs) =>
          if IsScope(e.name) then ScopeMembers(e.name, vs, le)
          else [LibraryInfo(e.name, VersionList(e.name, SortDesc(vs, le)))];
      assert ScopedLibraryList(es, le) == head + ScopedLibraryList(rest, le);
      LookupAppend(head, ScopedLibraryList(rest, le), name);
      AtCons(es, scope, [pkg]);
      AtCons(rest, scope, [pkg]);
      assert [scope, pkg] == [scope] + [pkg];
      assert IsSegment(e.name) && Valid(e.node);
      if e.name == scope {
        assert Find(es, scope) == 0;
        assert Find(rest, scope) == |rest|;
        match e.node {
          case File(_) =>
          case Dir(ps) =>
            MembersLookup(scope, ps, le, pkg);
        }
      } else {
        assert Find(es, scope) == 1 + Find(rest, scope);
        match e.node {
          case File(_) =>
          case Dir(ps) =>
            if IsScope(e.name) {
              MemberNames(e.name, ps, le);
              forall l | l in head ensures l.name != name {
                var k :| 0 <= k < |ps| && l.name == e.name + "/" + ps[k].name;
                if l.name == name {
                  ScopeOfName(e.name, ps[k].name, scope, pkg);
                }
              }
              LookupAbsent(head, name);
            } else {
              assert head[0].name == e.name;
              assert name[|scope|] == '/';
              assert head[0].name != name;
            }
        }
      }
    }
  }

  /** An unscoped name is found exactly as in the catalog of build.js. */
  lemma {:induction false} PlainLookup(es: seq<Entry>, le: (string, string) -> bool, name: string)
    requires Valid(Dir(es))
    requires IsSegment(name) && !IsScope(name)
    ensures LookupLibrary(ScopedLibraryList(es, le), name) ==
      match At(Dir(es), [name])
      case Some(Dir(vs)) => Some(VersionList(name, SortDesc(vs, le)))
      case _ => None
    decreases |es|
  {
    if es != [] {
      var rest := es[1..];
      var e := es[0];
      ValidTail(es);
      PlainLookup(rest, le, name);
      var head := match e.node
        case File(_) => []
        case Dir(vs) =>
          if IsScope(e.name) then ScopeMembers(e.name, vs, le)
          else [LibraryInfo(e.name, VersionList(e.name, SortDesc(vs, le)))];
      assert ScopedLibraryList(es, le) == head + ScopedLibraryList(rest, le);
      LookupAppend(head, ScopedLibraryList(rest, le), name);
      if e.name == name {
        assert Find(es, name) == 0;
        assert At(Dir(es), [name]) == Some(e.node);
        assert Find(rest, name) == |rest|;
        assert At(Dir(rest), [name]) == None;
      } else {
        assert Find(es, name) == 1 + Find(rest, name);
        assert At(Dir(es), [name]) == At(Dir(rest), [name]);
        match e.node {
          case File(_) =>
          case Dir(ps) =>
            if IsScope(e.name) {
              MemberNames(e.name, ps, le);
              forall l | l in head ensures l.name != name {
                var k :| 0 <= k < |ps| && l.name == e.name + "/" + ps[k].name;
                assert l.name[|e.name|] == '/';
              }
              LookupAbsent(head, name);
            }
        }
      }
    }
  }

  // ---------------------------------------------------------------------
  // The corrected catalog against the tree

  /** Across `libs`, the URL of `p` below version `ver` of "<scope>/<pkg>" is
      listed under that library exactly when `<scope>/<pkg>/<ver>/p` is a
      file and the URL passes the filter. */
  lemma ScopedLibrariesList(es: seq<Entry>, le: (string, string) -> bool,
                            scope: string, pkg: string, ver: string, p: Path)
    requires Valid(Dir(es))
    requires IsScope(scope) && '/' !in scope
    requires AllSegments(p) && p != []
    ensures
      var name := scope + "/" + pkg;
      CatalogLists(ScopedLibraryList(es, le), name, ver, Url(name, ver, p))
      <==> IsFileAt(Dir(es), [scope, pkg, ver] + p) && Listed(Url(name, ver, p))
  {
    var name := scope + "/" + pkg;
    ScopedLookup(es, le, scope, pkg);
    AtAppend(Dir(es), [scope, pkg], [ver] + p);
    assert [scope, pkg] + ([ver] + p) == [scope, pkg, ver] + p;
    match At(Dir(es), [scope, pkg]) {
      case None =>
      case Some(File(d)) =>
        assert At(File(d), [ver] + p) == None;
      case Some(Dir(vs)) =>
        AtValid(Dir(es), [scope, pkg]);
        VersionsList(name, vs, le, ver, p);
    }
  }

  /** With scopes expanded, the URL of `p` below version `ver` of
      "<scope>/<pkg>" is listed under that library exactly when
      `libs/<scope>/<pkg>/<ver>/p` is a file and the URL passes the filter. */
  lemma ScopedListsFile(project: Node, le: (string, string) -> bool,
                        scope: string, pkg: string, ver: string, p: Path)
    requires Valid(project)
    requires IsScope(scope) && '/' !in scope
    requires AllSegments(p) && p != []
    ensures BuildScopedCatalog(project, le).Some? <==> !IsFileAt(project, [DIST_DIR])
    ensures BuildScopedCatalog(project, le).Some? ==>
      var name := scope + "/" + pkg;
      (CatalogLists(BuildScopedCatalog(project, le).value, name, ver, Url(name, ver, p))
       <==> IsFileAt(project, [DIST_DIR, scope, pkg, ver] + p) && Listed(Url(name, ver, p)))
  {
    AtAppend(project, [DIST_DIR], [scope, pkg, ver] + p);
    assert [DIST_DIR] + ([scope, pkg, ver] + p) == [DIST_DIR, scope, pkg, ver] + p;
    match At(project, [DIST_DIR]) {
      case None =>
      case Some(File(_)) =>
      case Some(Dir(es)) =>
        AtValid(project, [DIST_DIR]);
        ScopedLibrariesList(es, le, scope, pkg, ver, p);
    }
  }
}
