/** The filesystem as a value: a tree of directories whose listings keep
    their enumeration order, the map view of it (`At`, `Stat`), and the two
    operations the archiver applies to it, `fs.ensureDirSync` (`EnsureDir`)
    and the placing of a copied file or subtree (`Put`). */
module FsTree {
  import opened Paths

  datatype Option<T> = None | Some(value: T)

  type Bytes = seq<bv8>

  /** A file with its bytes, or a directory with its entries in listing order. */
  datatype Node = File(data: Bytes) | Dir(entries: seq<Entry>)

  datatype Entry = Entry(name: string, node: Node)

  /** What `fs.statSync` tells about an existing path. */
  datatype Kind = FileKind(data: Bytes) | DirKind

  function KindOf(n: Node): Kind
  {
    match n
    case File(d) => FileKind(d)
    case Dir(_) => DirKind
  }

  /** The index of the first entry called `name`, or |es| when there is none. */
  function Find(es: seq<Entry>, name: string): (i: nat)
    ensures i <= |es|
    ensures i < |es| ==> es[i].name == name
    ensures forall j :: 0 <= j < i ==> es[j].name != name
  {
    if es == [] then 0
    else if es[0].name == name then 0
    else 1 + Find(es[1..], name)
  }

  /** The node found by following `p` down from `t`, if any. */
  function At(t: Node, p: Path): Option<Node>
    decreases p
  {
    if p == [] then Some(t)
    else match t
      case File(_) => None
      case Dir(es) =>
        var i := Find(es, p[0]);
        if i < |es| then At(es[i].node, p[1..]) else None
  }

  /** `fs.existsSync` is `Stat(t, p).Some?`; `statSync(..).isDirectory()` is `IsDirAt`. */
  function Stat(t: Node, p: Path): Option<Kind>
  {
    match At(t, p)
    case None => None
    case Some(n) => Some(KindOf(n))
  }

  predicate IsDirAt(t: Node, p: Path) {
    Stat(t, p) == Some(DirKind)
  }

  predicate IsFileAt(t: Node, p: Path) {
    Stat(t, p).Some? && Stat(t, p).value.FileKind?
  }

  predicate UniqueNames(es: seq<Entry>) {
    forall i, j :: 0 <= i < j < |es| ==> es[i].name != es[j].name
  }

  /** What a real directory tree satisfies: entry names are single segments,
      distinct within their directory. */
  predicate Valid(t: Node)
    decreases t
  {
    match t
    case File(_) => true
    case Dir(es) =>
      UniqueNames(es) &&
      forall i :: 0 <= i < |es| ==> IsSegment(es[i].name) && Valid(es[i].node)
  }

  /** Every path that exists in `t` exists in `u` with the same kind and, for a
      file, the same bytes: nothing was removed or overwritten. */
  ghost predicate Extends(t: Node, u: Node) {
    forall q :: Stat(t, q).Some? ==> Stat(u, q) == Stat(t, q)
  }

  // ---------------------------------------------------------------------
  // Lookup lemmas

  lemma AtCons(es: seq<Entry>, x: string, q: Path)
    ensures At(Dir(es), [x] + q) ==
      (var i := Find(es, x); if i < |es| then At(es[i].node, q) else None)
  {
    assert ([x] + q)[0] == x;
    assert ([x] + q)[1..] == q;
  }

  /** Looking up `p + q` is looking up `q` below the node at `p`. */
  lemma {:induction false} AtAppend(t: Node, p: Path, q: Path)
    ensures At(t, p + q) == (match At(t, p) case None => None case Some(s) => At(s, q))
    decreases p
  {
    if p == [] {
      assert p + q == q;
    } else {
      assert p + q == [p[0]] + (p[1..] + q);
      assert p == [p[0]] + p[1..];
      match t
      case File(_) =>
      case Dir(es) =>
        AtCons(es, p[0], p[1..] + q);
        AtCons(es, p[0], p[1..]);
        var i := Find(es, p[0]);
        if i < |es| {
          AtAppend(es[i].node, p[1..], q);
        }
    }
  }

  /** Only directories have something below them. */
  lemma {:induction false} AncestorsAreDirs(t: Node, p: Path, q: Path)
    requires At(t, p).Some?
    requires q < p
    ensures IsDirAt(t, q)
  {
    var r := p[|q|..];
    assert p == q + r;
    AtAppend(t, q, r);
    var s := At(t, q).value;
    assert At(s, r).Some?;
    assert r != [];
    assert s.Dir?;
  }

  lemma PrefixCons(q: Path, p: Path)
    requires q != [] && p != []
    ensures q <= p <==> q[0] == p[0] && q[1..] <= p[1..]
    ensures q < p <==> q[0] == p[0] && q[1..] < p[1..]
  {
    assert q == [q[0]] + q[1..];
    assert p == [p[0]] + p[1..];
  }

  lemma FindAppend(es: seq<Entry>, e: Entry, y: string)
    ensures Find(es + [e], y) ==
      if Find(es, y) < |es| then Find(es, y) else if e.name == y then |es| else |es| + 1
  {
    var f := Find(es + [e], y);
    var g := Find(es, y);
    assert forall j :: 0 <= j < |es| ==> (es + [e])[j] == es[j];
    if g < |es| {
      assert (es + [e])[g].name == y;
    } else if e.name == y {
      assert (es + [e])[|es|].name == y;
    }
  }

  lemma FindUpdate(es: seq<Entry>, i: nat, e: Entry, y: string)
    requires i < |es| && e.name == es[i].name
    ensures Find(es[i := e], y) == Find(es, y)
  {
    var f := Find(es[i := e], y);
    var g := Find(es, y);
    assert forall j :: 0 <= j < |es| ==> es[i := e][j].name == es[j].name;
    if g < |es| {
      assert es[i := e][g].name == y;
    }
    if f < |es| {
      assert es[f].name == y;
    }
  }

  // ---------------------------------------------------------------------
  // fs.ensureDirSync

  /** Nested empty directories along `p`. */
  function Chain(p: Path): Node
  {
    if p == [] then Dir([]) else Dir([Entry(p[0], Chain(p[1..]))])
  }

  /** `fs.ensureDirSync(p)`: creates every missing directory along `p`; fails
      (None) when a name along `p`, or `p` itself, is a file. */
  function EnsureDir(t: Node, p: Path): Option<Node>
    decreases p
  {
    match t
    case File(_) => None
    case Dir(es) =>
      if p == [] then Some(t)
      else
        var i := Find(es, p[0]);
        if i < |es| then
          match EnsureDir(es[i].node, p[1..])
          case None => None
          case Some(c) => Some(Dir(es[i := Entry(p[0], c)]))
        else Some(Dir(es + [Entry(p[0], Chain(p[1..]))]))
  }

  lemma {:induction false} ChainSpec(p: Path)
    ensures forall q :: q <= p ==> IsDirAt(Chain(p), q)
    ensures forall q :: !(q <= p) ==> At(Chain(p), q) == None
    decreases p
  {
    if p != [] {
      ChainSpec(p[1..]);
      var es := [Entry(p[0], Chain(p[1..]))];
      assert Chain(p) == Dir(es);
      forall q | q != []
        ensures (q <= p ==> IsDirAt(Chain(p), q)) && (!(q <= p) ==> At(Chain(p), q) == None)
      {
        PrefixCons(q, p);
        if q[0] == p[0] {
          assert Find(es, q[0]) == 0;
          assert At(Chain(p), q) == At(Chain(p[1..]), q[1..]);
          if q[1..] <= p[1..] {
            assert IsDirAt(Chain(p[1..]), q[1..]);
          } else {
            assert At(Chain(p[1..]), q[1..]) == None;
          }
        } else {
          assert Find(es, q[0]) == 1;
        }
      }
    } else {
      forall q | q != [] ensures At(Chain(p), q) == None {
        assert Chain(p) == Dir([]);
      }
    }
  }

  /** What `EnsureDir(t, p)` does: it succeeds exactly when no name along `p`
      is a file; then every directory along `p` exists and nothing off that
      line changed. */
  ghost predicate EnsureDirMeets(t: Node, p: Path) {
    (EnsureDir(t, p).Some? <==> forall q :: q <= p ==> !IsFileAt(t, q)) &&
    (EnsureDir(t, p).Some? ==>
      (forall q :: q <= p ==> IsDirAt(EnsureDir(t, p).value, q)) &&
      (forall q :: !(q <= p) ==> At(EnsureDir(t, p).value, q) == At(t, q)))
  }

  /** `EnsureDir` succeeds exactly when no name along `p` is a file; then
      every directory along `p` exists and nothing off that line changed. */
  lemma {:induction false} EnsureDirSpec(t: Node, p: Path)
    ensures EnsureDir(t, p).Some? <==> forall q :: q <= p ==> !IsFileAt(t, q)
    ensures EnsureDir(t, p).Some? ==>
      (forall q :: q <= p ==> IsDirAt(EnsureDir(t, p).value, q)) &&
      (forall q :: !(q <= p) ==> At(EnsureDir(t, p).value, q) == At(t, q))
    decreases p
  {
    assert [] <= p;
    match t
    case File(_) =>
      assert IsFileAt(t, []);
    case Dir(es) =>
      if p == [] {
        forall q | q <= p ensures !IsFileAt(t, q) && IsDirAt(t, q) {
          assert q == [];
        }
      } else {
        var i := Find(es, p[0]);
        if i < |es| {
          EnsureDirSpec(es[i].node, p[1..]);
          match EnsureDir(es[i].node, p[1..]) {
            case None => EnsureDirBlocked(es, p);
            case Some(c) => EnsureDirInChild(es, p, c);
          }
        } else {
          EnsureDirNew(es, p);
        }
      }
  }

  /** A file along the rest of `p` below an existing child blocks `EnsureDir`. */
  lemma EnsureDirBlocked(es: seq<Entry>, p: Path)
    requires p != [] && Find(es, p[0]) < |es|
    requires var child := es[Find(es, p[0])].node;
      EnsureDir(child, p[1..]).None? && exists q :: q <= p[1..] && IsFileAt(child, q)
    ensures EnsureDir(Dir(es), p).None?
    ensures exists q :: q <= p && IsFileAt(Dir(es), q)
  {
    var x := p[0];
    var child := es[Find(es, x)].node;
    var q' :| q' <= p[1..] && IsFileAt(child, q');
    var q := [x] + q';
    PrefixCons(q, p);
    assert q[1..] == q';
    assert At(Dir(es), q) == At(child, q');
    assert IsFileAt(Dir(es), q);
  }

  /** `EnsureDir` through an existing child directory meets its description
      when the recursive call below that child does. */
  lemma EnsureDirInChild(es: seq<Entry>, p: Path, c: Node)
    requires p != [] && Find(es, p[0]) < |es|
    requires EnsureDir(es[Find(es, p[0])].node, p[1..]) == Some(c)
    requires EnsureDirMeets(es[Find(es, p[0])].node, p[1..])
    ensures EnsureDirMeets(Dir(es), p)
  {
    var i := Find(es, p[0]);
    var u := Dir(es[i := Entry(p[0], c)]);
    assert EnsureDir(Dir(es), p) == Some(u);
    forall q | q <= p ensures !IsFileAt(Dir(es), q) && IsDirAt(u, q) {
      EnsureDirChildAlong(es, p, c, q);
    }
    forall q | !(q <= p) ensures At(u, q) == At(Dir(es), q) {
      EnsureDirChildOff(es, p, c, q);
    }
  }

  /** Along `p`, the child's facts lift to the parent directory. */
  lemma EnsureDirChildAlong(es: seq<Entry>, p: Path, c: Node, q: Path)
    requires p != [] && Find(es, p[0]) < |es|
    requires forall r :: r <= p[1..] ==> !IsFileAt(es[Find(es, p[0])].node, r) && IsDirAt(c, r)
    requires q <= p
    ensures !IsFileAt(Dir(es), q) && IsDirAt(Dir(es[Find(es, p[0]) := Entry(p[0], c)]), q)
  {
    var i := Find(es, p[0]);
    var u := Dir(es[i := Entry(p[0], c)]);
    if q != [] {
      PrefixCons(q, p);
      FindUpdate(es, i, Entry(p[0], c), p[0]);
      assert At(Dir(es), q) == At(es[i].node, q[1..]);
      assert At(u, q) == At(c, q[1..]);
      assert !IsFileAt(es[i].node, q[1..]) && IsDirAt(c, q[1..]);
    } else {
      assert IsDirAt(u, q);
    }
  }

  /** Off `p`, the updated directory agrees with the old one. */
  lemma EnsureDirChildOff(es: seq<Entry>, p: Path, c: Node, q: Path)
    requires p != [] && Find(es, p[0]) < |es|
    requires forall r :: !(r <= p[1..]) ==> At(c, r) == At(es[Find(es, p[0])].node, r)
    requires !(q <= p)
    ensures At(Dir(es[Find(es, p[0]) := Entry(p[0], c)]), q) == At(Dir(es), q)
  {
    var i := Find(es, p[0]);
    var es' := es[i := Entry(p[0], c)];
    assert q != [];
    PrefixCons(q, p);
    FindUpdate(es, i, Entry(p[0], c), q[0]);
    var j := Find(es, q[0]);
    if j < |es| {
      if j == i {
        assert At(Dir(es'), q) == At(c, q[1..]);
        assert At(Dir(es), q) == At(es[i].node, q[1..]);
      } else {
        assert es'[j] == es[j];
      }
    }
  }

  /** `EnsureDir` below a missing name appends the chain of new directories
      and meets its description. */
  lemma EnsureDirNew(es: seq<Entry>, p: Path)
    requires p != [] && Find(es, p[0]) == |es|
    ensures EnsureDirMeets(Dir(es), p)
  {
    var x := p[0];
    var t := Dir(es);
    var e := Entry(x, Chain(p[1..]));
    var u := Dir(es + [e]);
    assert EnsureDir(t, p) == Some(u);
    ChainSpec(p[1..]);
    FindAppend(es, e, x);
    assert (es + [e])[|es|] == e;
    forall q | q <= p ensures !IsFileAt(t, q) && IsDirAt(u, q) {
      if q != [] {
        PrefixCons(q, p);
        assert At(t, q) == None;
        assert At(u, q) == At(Chain(p[1..]), q[1..]);
        assert IsDirAt(Chain(p[1..]), q[1..]);
      } else {
        assert IsDirAt(u, q);
      }
    }
    forall q | !(q <= p) ensures At(u, q) == At(t, q) {
      assert q != [];
      PrefixCons(q, p);
      FindAppend(es, e, q[0]);
      var j := Find(es, q[0]);
      if j < |es| {
        assert (es + [e])[j] == es[j];
      } else if q[0] == x {
        assert At(u, q) == At(Chain(p[1..]), q[1..]);
      }
    }
  }

  lemma EnsureDirExtends(t: Node, p: Path)
    requires EnsureDir(t, p).Some?
    ensures Extends(t, EnsureDir(t, p).value)
  {
    EnsureDirSpec(t, p);
    var u := EnsureDir(t, p).value;
    forall q | Stat(t, q).Some? ensures Stat(u, q) == Stat(t, q) {
      if q <= p {
        assert !IsFileAt(t, q) && IsDirAt(u, q);
      } else {
        assert At(u, q) == At(t, q);
      }
    }
  }

  /** Ensuring a directory that is already there changes nothing. */
  lemma EnsureDirPresent(t: Node, p: Path)
    requires IsDirAt(t, p)
    ensures EnsureDir(t, p) == Some(t)
  {
    EnsureDirPresentAux(t, p);
  }

  lemma {:induction false} EnsureDirPresentAux(t: Node, p: Path)
    requires IsDirAt(t, p)
    ensures EnsureDir(t, p) == Some(t)
    decreases p
  {
    if p != [] {
      var es := t.entries;
      var i := Find(es, p[0]);
      EnsureDirPresentAux(es[i].node, p[1..]);
      assert es[i := Entry(p[0], es[i].node)] == es;
    }
  }

  // ---------------------------------------------------------------------
  // Placing a copy (fs.copySync into a path that does not exist yet)

  /** `p` does not exist in `t` and its parent is a directory. */
  predicate Placeable(t: Node, p: Path)
    decreases p
  {
    match t
    case File(_) => false
    case Dir(es) =>
      p != [] &&
      var i := Find(es, p[0]);
      if |p| == 1 then i == |es| else i < |es| && Placeable(es[i].node, p[1..])
  }

  /** The tree with `n` added as the last entry of the parent directory of `p`. */
  function Put(t: Node, p: Path, n: Node): Node
    requires Placeable(t, p)
    decreases p
  {
    var es := t.entries;
    var i := Find(es, p[0]);
    if |p| == 1 then Dir(es + [Entry(p[0], n)])
    else Dir(es[i := Entry(p[0], Put(es[i].node, p[1..], n))])
  }

  /** `Placeable` is the copy's precondition in map terms: `p` is absent and
      its parent directory exists. */
  lemma {:induction false} PlaceableIff(t: Node, p: Path)
    ensures Placeable(t, p) <==> p != [] && IsDirAt(t, p[..|p| - 1]) && At(t, p) == None
    decreases p
  {
    if p != [] {
      match t
      case File(_) =>
        assert p[..|p| - 1] == [] || At(t, p[..|p| - 1]) == None;
      case Dir(es) =>
        var x := p[0];
        var i := Find(es, x);
        assert p == [x] + p[1..];
        AtCons(es, x, p[1..]);
        if |p| > 1 {
          if i < |es| { PlaceableIff(es[i].node, p[1..]); }
          assert p[..|p| - 1] == [x] + p[1..][..|p| - 2];
          AtCons(es, x, p[1..][..|p| - 2]);
        } else {
          assert p[..|p| - 1] == [];
          assert At(t, p) == None <==> i == |es|;
        }
    }
  }

  /** One level of lookup in a directory whose entry `i` got a new node. */
  lemma AtUpdated(es: seq<Entry>, i: nat, c: Node, q: Path)
    requires i < |es| && i == Find(es, es[i].name)
    requires q != []
    ensures At(Dir(es[i := Entry(es[i].name, c)]), q) ==
      if q[0] == es[i].name then At(c, q[1..]) else At(Dir(es), q)
  {
    var e := Entry(es[i].name, c);
    FindUpdate(es, i, e, q[0]);
    var j := Find(es, q[0]);
    if j < |es| && j != i {
      assert es[i := e][j] == es[j];
    }
  }

  /** One level of lookup in a directory that got a new last entry. */
  lemma AtAppended(es: seq<Entry>, e: Entry, q: Path)
    requires Find(es, e.name) == |es|
    requires q != []
    ensures At(Dir(es + [e]), q) == if q[0] == e.name then At(e.node, q[1..]) else At(Dir(es), q)
  {
    FindAppend(es, e, q[0]);
    var j := Find(es, q[0]);
    if j < |es| {
      assert (es + [e])[j] == es[j];
    } else if q[0] == e.name {
      assert (es + [e])[|es|] == e;
    }
  }

  /** After `Put`, `n` sits at `p`, the directories above it are still
      directories, and every path beside `p` looks as before. */
  lemma {:induction false} PutSpec(t: Node, p: Path, n: Node)
    requires Placeable(t, p)
    ensures At(Put(t, p, n), p) == Some(n)
    ensures forall q :: q < p ==> IsDirAt(Put(t, p, n), q)
    ensures forall q :: !(q <= p) && !(p <= q) ==> At(Put(t, p, n), q) == At(t, q)
    decreases p
  {
    var es := t.entries;
    if |p| == 1 {
      PutHere(es, p, n);
    } else {
      var i := Find(es, p[0]);
      PutSpec(es[i].node, p[1..], n);
      PutBelow(es, p, n);
    }
  }

  /** `Put` of a one-name path appends the entry to the directory. */
  lemma PutHere(es: seq<Entry>, p: Path, n: Node)
    requires |p| == 1 && Placeable(Dir(es), p)
    ensures At(Put(Dir(es), p, n), p) == Some(n)
    ensures forall q :: q < p ==> IsDirAt(Put(Dir(es), p, n), q)
    ensures forall q :: !(q <= p) && !(p <= q) ==> At(Put(Dir(es), p, n), q) == At(Dir(es), q)
  {
    var e := Entry(p[0], n);
    var u := Put(Dir(es), p, n);
    assert u == Dir(es + [e]);
    AtAppended(es, e, p);
    forall q | q < p ensures IsDirAt(u, q) {
      assert q == [];
    }
    forall q | !(q <= p) && !(p <= q) ensures At(u, q) == At(Dir(es), q) {
      assert q != [];
      PrefixCons(q, p);
      AtAppended(es, e, q);
    }
  }

  /** `Put` below an existing child meets its description when the `Put`
      inside that child does. */
  lemma PutBelow(es: seq<Entry>, p: Path, n: Node)
    requires |p| > 1 && Placeable(Dir(es), p)
    requires var c := es[Find(es, p[0])].node;
      At(Put(c, p[1..], n), p[1..]) == Some(n) &&
      (forall q :: q < p[1..] ==> IsDirAt(Put(c, p[1..], n), q)) &&
      (forall q :: !(q <= p[1..]) && !(p[1..] <= q) ==> At(Put(c, p[1..], n), q) == At(c, q))
    ensures At(Put(Dir(es), p, n), p) == Some(n)
    ensures forall q :: q < p ==> IsDirAt(Put(Dir(es), p, n), q)
    ensures forall q :: !(q <= p) && !(p <= q) ==> At(Put(Dir(es), p, n), q) == At(Dir(es), q)
  {
    var i := Find(es, p[0]);
    var c := Put(es[i].node, p[1..], n);
    var u := Dir(es[i := Entry(p[0], c)]);
    assert Put(Dir(es), p, n) == u;
    AtUpdated(es, i, c, p);
    UpdatedAlong(es, i, c, p, u);
    UpdatedOff(es, i, c, p, u);
  }

  /** Directories along the rest of `p` in the new child are directories
      along `p` in the updated parent. */
  lemma UpdatedAlong(es: seq<Entry>, i: nat, c: Node, p: Path, u: Node)
    requires p != [] && i < |es| && i == Find(es, p[0])
    requires u == Dir(es[i := Entry(p[0], c)])
    requires forall q :: q < p[1..] ==> IsDirAt(c, q)
    ensures forall q :: q < p ==> IsDirAt(u, q)
  {
    forall q | q < p ensures IsDirAt(u, q) {
      if q != [] {
        PrefixCons(q, p);
        AtUpdated(es, i, c, q);
        assert IsDirAt(c, q[1..]);
      }
    }
  }

  /** Paths beside `p` look the same in the updated parent when paths beside
      the rest of `p` look the same in the new child. */
  lemma UpdatedOff(es: seq<Entry>, i: nat, c: Node, p: Path, u: Node)
    requires p != [] && i < |es| && i == Find(es, p[0])
    requires u == Dir(es[i := Entry(p[0], c)])
    requires forall q :: !(q <= p[1..]) && !(p[1..] <= q) ==> At(c, q) == At(es[i].node, q)
    ensures forall q :: !(q <= p) && !(p <= q) ==> At(u, q) == At(Dir(es), q)
  {
    forall q | !(q <= p) && !(p <= q) ensures At(u, q) == At(Dir(es), q) {
      assert q != [];
      PrefixCons(q, p);
      AtUpdated(es, i, c, q);
    }
  }

  lemma PutExtends(t: Node, p: Path, n: Node)
    requires Placeable(t, p)
    ensures Extends(t, Put(t, p, n))
  {
    PutSpec(t, p, n);
    PlaceableIff(t, p);
    var u := Put(t, p, n);
    var parent := p[..|p| - 1];
    forall q | Stat(t, q).Some? ensures Stat(u, q) == Stat(t, q) {
      if q < p {
        assert |q| <= |parent| && parent[..|q|] == p[..|q|];
        assert q <= parent;
        if q == parent {
          assert IsDirAt(t, parent);
        } else {
          AncestorsAreDirs(t, parent, q);
        }
        assert IsDirAt(t, q);
        assert IsDirAt(u, q);
      } else {
        AbsentBelow(t, p, q);
        assert At(u, q) == At(t, q);
      }
    }
  }

  /** Nothing exists below a path that does not exist. */
  lemma AbsentBelow(t: Node, p: Path, q: Path)
    requires At(t, p) == None
    ensures p <= q ==> At(t, q) == None
  {
    if p <= q {
      AtAppend(t, p, q[|p|..]);
      assert p + q[|p|..] == q;
    }
  }

  // ---------------------------------------------------------------------
  // Well-formedness is kept

  lemma {:induction false} ChainValid(p: Path)
    requires AllSegments(p)
    ensures Valid(Chain(p))
    decreases p
  {
    if p != [] {
      ChainValid(p[1..]);
    }
  }

  /** Every subtree of a well-formed tree is well formed. */
  lemma {:induction false} AtValid(t: Node, p: Path)
    requires Valid(t)
    ensures At(t, p).Some? ==> Valid(At(t, p).value)
    decreases p
  {
    if p != [] && t.Dir? {
      var i := Find(t.entries, p[0]);
      if i < |t.entries| {
        AtValid(t.entries[i].node, p[1..]);
      }
    }
  }

  lemma AppendUnique(es: seq<Entry>, e: Entry)
    requires UniqueNames(es)
    requires Find(es, e.name) == |es|
    ensures UniqueNames(es + [e])
  {
  }

  lemma {:induction false} EnsureDirValid(t: Node, p: Path)
    requires Valid(t) && AllSegments(p)
    requires EnsureDir(t, p).Some?
    ensures Valid(EnsureDir(t, p).value)
    decreases p
  {
    if p != [] {
      var es := t.entries;
      var i := Find(es, p[0]);
      if i < |es| {
        EnsureDirValid(es[i].node, p[1..]);
      } else {
        ChainValid(p[1..]);
        AppendUnique(es, Entry(p[0], Chain(p[1..])));
      }
    }
  }

  lemma {:induction false} PutValid(t: Node, p: Path, n: Node)
    requires Valid(t) && Valid(n) && AllSegments(p)
    requires Placeable(t, p)
    ensures Valid(Put(t, p, n))
    decreases p
  {
    var es := t.entries;
    var i := Find(es, p[0]);
    if |p| == 1 {
      AppendUnique(es, Entry(p[0], n));
    } else {
      PutValid(es[i].node, p[1..], n);
    }
  }
}
