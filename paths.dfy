/** Path strings and their segment form: splitting on '/', `path.join`-style
    normalisation, `path.basename`, and the '/'-joined URL suffix that the
    catalog builds for a file below a version directory. */
module Paths {

  /** A path below some directory, one entry name per segment. */
  type Path = seq<string>

  /** `distDir`: the directory, below the project directory, that receives
      the copies and that the catalog is read from. */
  const DIST_DIR := "libs"

  /** A name that can stand for one directory entry. */
  predicate IsSegment(s: string) {
    s != "" && '/' !in s
  }

  predicate AllSegments(p: Path) {
    forall i :: 0 <= i < |p| ==> IsSegment(p[i])
  }

  /** The pieces of `s` between '/' characters, empty pieces kept:
      "/a//b" gives ["", "a", "", "b"]. */
  function SplitOn(s: string): (parts: seq<string>)
    ensures |parts| >= 1
    ensures forall i :: 0 <= i < |parts| ==> '/' !in parts[i]
  {
    if s == [] then [""]
    else if s[0] == '/' then [""] + SplitOn(s[1..])
    else
      var rest := SplitOn(s[1..]);
      [[s[0]] + rest[0]] + rest[1..]
  }

  /** The pieces joined back with '/' between them. */
  function JoinWith(parts: seq<string>): string
  {
    if parts == [] then ""
    else if |parts| == 1 then parts[0]
    else parts[0] + "/" + JoinWith(parts[1..])
  }

  lemma {:induction false} SplitOfSegment(s: string)
    requires '/' !in s
    ensures SplitOn(s) == [s]
  {
    if s != [] {
      SplitOfSegment(s[1..]);
      assert [s[0]] + s[1..] == s;
    }
  }

  /** A '/' at the seam splits the string into the pieces of each side. */
  lemma {:induction false} SplitAtSlash(a: string, b: string)
    ensures SplitOn(a + "/" + b) == SplitOn(a) + SplitOn(b)
  {
    if a == [] {
      assert a + "/" + b == ['/'] + b;
      assert (a + "/" + b)[1..] == b;
    } else {
      assert (a + "/" + b)[0] == a[0];
      assert (a + "/" + b)[1..] == a[1..] + "/" + b;
      SplitAtSlash(a[1..], b);
    }
  }

  /** Joining undoes splitting, for every string. */
  lemma {:induction false} JoinSplit(s: string)
    ensures JoinWith(SplitOn(s)) == s
  {
    if s != [] {
      JoinSplit(s[1..]);
      var rest := SplitOn(s[1..]);
      if s[0] == '/' {
        assert JoinWith([""] + rest) == "" + "/" + JoinWith(rest);
        assert "" + "/" + s[1..] == s;
      } else {
        JoinPrepend(s[0], rest);
        assert [s[0]] + s[1..] == s;
      }
    }
  }

  /** A character glued to the first piece comes first in the joined string. */
  lemma JoinPrepend(c: char, rest: seq<string>)
    requires |rest| >= 1
    ensures JoinWith([[c] + rest[0]] + rest[1..]) == [c] + JoinWith(rest)
  {
    var parts := [[c] + rest[0]] + rest[1..];
    if |rest| > 1 {
      var a := rest[0];
      var j := JoinWith(rest[1..]);
      calc {
        JoinWith(parts);
        { assert parts[1..] == rest[1..]; }
        ([c] + a) + "/" + j;
        [c] + (a + "/" + j);
        [c] + JoinWith(rest);
      }
    }
  }

  /** `path.join` normalisation of the pieces: empty pieces and "." are dropped. */
  function Normal(parts: seq<string>): (p: Path)
    requires forall i :: 0 <= i < |parts| ==> '/' !in parts[i]
    ensures AllSegments(p)
    ensures forall i :: 0 <= i < |p| ==> p[i] != "."
    ensures |p| <= |parts|
  {
    if parts == [] then []
    else if parts[0] == "" || parts[0] == "." then Normal(parts[1..])
    else [parts[0]] + Normal(parts[1..])
  }

  lemma {:induction false} NormalAppend(a: seq<string>, b: seq<string>)
    requires forall i :: 0 <= i < |a| ==> '/' !in a[i]
    requires forall i :: 0 <= i < |b| ==> '/' !in b[i]
    ensures Normal(a + b) == Normal(a) + Normal(b)
  {
    if a == [] {
      assert a + b == b;
    } else {
      assert (a + b)[0] == a[0];
      assert (a + b)[1..] == a[1..] + b;
      NormalAppend(a[1..], b);
      if a[0] == "" || a[0] == "." {
        assert Normal(a + b) == Normal(a[1..] + b);
      } else {
        assert Normal(a + b) == [a[0]] + Normal(a[1..] + b);
        assert Normal(a) == [a[0]] + Normal(a[1..]);
      }
    }
  }

  /** The segments of a '/'-separated path string, as `path.join` leaves them. */
  function Segments(s: string): (p: Path)
    ensures AllSegments(p)
  {
    Normal(SplitOn(s))
  }

  /** Joining strings with '/' concatenates their segments. */
  lemma SegmentsAtSlash(a: string, b: string)
    ensures Segments(a + "/" + b) == Segments(a) + Segments(b)
  {
    SplitAtSlash(a, b);
    NormalAppend(SplitOn(a), SplitOn(b));
  }

  /** A plain entry name is one segment. */
  lemma SegmentsOfSegment(s: string)
    requires IsSegment(s) && s != "."
    ensures Segments(s) == [s]
  {
    SplitOfSegment(s);
  }

  /** The last non-empty piece, or "" when there is none. */
  function LastNonEmpty(parts: seq<string>): string
  {
    if parts == [] then ""
    else if parts[|parts| - 1] != "" then parts[|parts| - 1]
    else LastNonEmpty(parts[..|parts| - 1])
  }

  /** `path.basename`: the last name of a path string; trailing '/'s are ignored. */
  function BaseName(s: string): (b: string)
    ensures '/' !in b
  {
    var parts := SplitOn(s);
    var b := LastNonEmpty(parts);
    assert b == "" || b in parts by { LastNonEmptyIn(parts); }
    b
  }

  lemma {:induction false} LastNonEmptyIn(parts: seq<string>)
    ensures LastNonEmpty(parts) == "" || LastNonEmpty(parts) in parts
  {
    if parts != [] && parts[|parts| - 1] == "" {
      LastNonEmptyIn(parts[..|parts| - 1]);
    }
  }

  lemma {:induction false} LastNonEmptyEmpty(parts: seq<string>)
    ensures LastNonEmpty(parts) == "" <==> forall i :: 0 <= i < |parts| ==> parts[i] == ""
  {
    if parts != [] && parts[|parts| - 1] == "" {
      LastNonEmptyEmpty(parts[..|parts| - 1]);
      assert forall i :: 0 <= i < |parts| - 1 ==> parts[..|parts| - 1][i] == parts[i];
    }
  }

  /** The base name of `dir/name` is `name`, whatever the directory part. */
  lemma BaseNameOfJoin(dir: string, name: string)
    requires IsSegment(name)
    ensures BaseName(dir + "/" + name) == name
  {
    SplitAtSlash(dir, name);
    SplitOfSegment(name);
  }

  /** A trailing '/' does not change the base name. */
  lemma BaseNameTrailingSlash(s: string)
    ensures BaseName(s + "/") == BaseName(s)
  {
    SplitAtSlash(s, "");
    assert s + "/" + "" == s + "/";
    var parts := SplitOn(s);
    assert SplitOn(s + "/") == parts + [""];
    assert (parts + [""])[..|parts|] == parts;
    assert LastNonEmpty(parts + [""]) == LastNonEmpty(parts);
  }

  /** `path.basename` is empty exactly when the path has no character but '/'. */
  lemma BaseNameEmpty(s: string)
    ensures BaseName(s) == "" <==> forall i :: 0 <= i < |s| ==> s[i] == '/'
  {
    LastNonEmptyEmpty(SplitOn(s));
    SlashOnly(s);
    assert BaseName(s) == LastNonEmpty(SplitOn(s));
  }

  predicate AllEmpty(parts: seq<string>) {
    forall i :: 0 <= i < |parts| ==> parts[i] == ""
  }

  lemma {:induction false} SlashOnly(s: string)
    ensures AllEmpty(SplitOn(s)) <==> (forall i :: 0 <= i < |s| ==> s[i] == '/')
  {
    if s != [] {
      SlashOnly(s[1..]);
      var rest := SplitOn(s[1..]);
      if s[0] == '/' {
        assert SplitOn(s) == [""] + rest;
        assert AllEmpty([""] + rest) <==> AllEmpty(rest) by {
          if AllEmpty([""] + rest) {
            forall i | 0 <= i < |rest| ensures rest[i] == "" {
              assert ([""] + rest)[i + 1] == rest[i];
            }
          }
        }
        assert (forall i :: 0 <= i < |s| ==> s[i] == '/') <==> (forall i :: 0 <= i < |s[1..]| ==> s[1..][i] == '/') by {
          assert forall i :: 1 <= i < |s| ==> s[i] == s[1..][i - 1];
        }
      } else {
        assert SplitOn(s)[0] == [s[0]] + rest[0];
        assert SplitOn(s)[0] != "";
      }
    }
  }

  /** The URL suffix of a relative path: "/" before every segment. */
  function Slashed(p: Path): string
  {
    if p == [] then "" else "/" + p[0] + Slashed(p[1..])
  }

  /** A '/'-free head followed by the slashed segments splits back into them. */
  lemma {:induction false} SplitSlashed(head: string, p: Path)
    requires '/' !in head
    requires AllSegments(p)
    ensures SplitOn(head + Slashed(p)) == [head] + p
    decreases |p|
  {
    if p == [] {
      assert head + Slashed(p) == head;
      SplitOfSegment(head);
    } else {
      assert head + Slashed(p) == head + "/" + (p[0] + Slashed(p[1..]));
      SplitAtSlash(head, p[0] + Slashed(p[1..]));
      SplitOfSegment(head);
      SplitSlashed(p[0], p[1..]);
      assert [p[0]] + p[1..] == p;
    }
  }
}
