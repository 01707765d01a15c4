/** The version order of the catalog: each library's listing is sorted newest
    first with a comparator on names. The comparator is a parameter `le`,
    "a sorts no later than b"; build.js sorts with `b.localeCompare(a, ...)`,
    i.e. by the reverse of that order. */
module Order {
  import opened FsTree

  /** What a `sort` comparator must be for the result to be sorted: any two
      names are comparable, and the order is transitive. */
  ghost predicate TotalPreorder(le: (string, string) -> bool) {
    (forall a, b :: le(a, b) || le(b, a)) &&
    (forall a, b, c :: le(a, b) && le(b, c) ==> le(a, c))
  }

  /** Newest first: every entry sorts no earlier than the entries after it. */
  predicate SortedDesc(s: seq<Entry>, le: (string, string) -> bool) {
    forall i, j :: 0 <= i < j < |s| ==> le(s[j].name, s[i].name)
  }

  /** Place `e` before the first entry that sorts no later than it. */
  function Insert(e: Entry, s: seq<Entry>, le: (string, string) -> bool): seq<Entry>
  {
    if s == [] then [e]
    else if le(s[0].name, e.name) then [e] + s
    else [s[0]] + Insert(e, s[1..], le)
  }

  /** `Insert` puts `e` in front of the first entry that sorts no later than
      it, after every entry that sorts strictly before it: so an entry the
      comparator ranks equal to `e` ends up after `e`, and the sort keeps
      the listing order of equal-ranked names. */
  lemma {:induction false} InsertPosition(e: Entry, s: seq<Entry>, le: (string, string) -> bool) returns (i: nat)
    ensures i <= |s| && Insert(e, s, le) == s[..i] + [e] + s[i..]
    ensures forall j :: 0 <= j < i ==> !le(s[j].name, e.name)
    ensures i < |s| ==> le(s[i].name, e.name)
    decreases |s|
  {
    if s == [] {
      i := 0;
    } else if le(s[0].name, e.name) {
      i := 0;
      assert s[..0] == [] && s[0..] == s;
    } else {
      var k := InsertPosition(e, s[1..], le);
      i := k + 1;
      assert s[..i] == [s[0]] + s[1..][..k];
      assert s[i..] == s[1..][k..];
      forall j | 0 <= j < i ensures !le(s[j].name, e.name) {
        if j > 0 {
          assert s[j] == s[1..][j - 1];
        }
      }
    }
  }

  /** `readdirSync(libPath).sort(...)` on the listing of one library. */
  function SortDesc(es: seq<Entry>, le: (string, string) -> bool): seq<Entry>
  {
    if es == [] then [] else Insert(es[0], SortDesc(es[1..], le), le)
  }

  lemma {:induction false} InsertPermutes(e: Entry, s: seq<Entry>, le: (string, string) -> bool)
    ensures multiset(Insert(e, s, le)) == multiset(s) + multiset{e}
    decreases |s|
  {
    if s != [] && !le(s[0].name, e.name) {
      InsertPermutes(e, s[1..], le);
      assert s == [s[0]] + s[1..];
    }
  }

  lemma {:induction false} InsertSorted(e: Entry, s: seq<Entry>, le: (string, string) -> bool)
    requires TotalPreorder(le)
    requires SortedDesc(s, le)
    ensures SortedDesc(Insert(e, s, le), le)
    decreases |s|
  {
    if s == [] {
    } else if le(s[0].name, e.name) {
      forall y | y in s ensures le(y.name, e.name) {
        var k :| 0 <= k < |s| && s[k] == y;
        if k > 0 {
          assert le(s[k].name, s[0].name);
        }
      }
      ConsSorted(e, s, le);
    } else {
      assert le(e.name, s[0].name);
      var tail := Insert(e, s[1..], le);
      InsertSorted(e, s[1..], le);
      InsertPermutes(e, s[1..], le);
      forall y | y in tail ensures le(y.name, s[0].name) {
        assert y in multiset(tail);
        assert y == e || y in multiset(s[1..]);
        if y != e {
          var k :| 0 <= k < |s[1..]| && s[1..][k] == y;
          assert s[k + 1] == y;
        }
      }
      ConsSorted(s[0], tail, le);
    }
  }

  /** An entry that sorts no earlier than every entry of a sorted listing can
      go in front of it. */
  lemma ConsSorted(x: Entry, s: seq<Entry>, le: (string, string) -> bool)
    requires SortedDesc(s, le)
    requires forall y :: y in s ==> le(y.name, x.name)
    ensures SortedDesc([x] + s, le)
  {
    var r := [x] + s;
    forall i, j | 0 <= i < j < |r| ensures le(r[j].name, r[i].name) {
      assert r[j] == s[j - 1] && r[j] in s;
      if i > 0 {
        assert r[i] == s[i - 1];
      }
    }
  }

  /** The sorted listing holds exactly the entries of the listing. */
  lemma {:induction false} SortDescPermutes(es: seq<Entry>, le: (string, string) -> bool)
    ensures multiset(SortDesc(es, le)) == multiset(es)
    decreases |es|
  {
    if es != [] {
      SortDescPermutes(es[1..], le);
      InsertPermutes(es[0], SortDesc(es[1..], le), le);
      MultisetCons(es);
    }
  }

  lemma MultisetCons<T>(s: seq<T>)
    requires s != []
    ensures multiset(s) == multiset(s[1..]) + multiset{s[0]}
  {
    assert s == [s[0]] + s[1..];
  }

  /** With a total preorder the listing comes out newest first. */
  lemma {:induction false} SortDescSorted(es: seq<Entry>, le: (string, string) -> bool)
    requires TotalPreorder(le)
    ensures SortedDesc(SortDesc(es, le), le)
    decreases |es|
  {
    if es != [] {
      SortDescSorted(es[1..], le);
      InsertSorted(es[0], SortDesc(es[1..], le), le);
    }
  }

  lemma UniqueByMultiset(a: seq<Entry>, b: seq<Entry>, e: Entry)
    requires UniqueNames(a)
    requires forall x :: x in a ==> x.name != e.name
    requires multiset(b) == multiset(a) + multiset{e}
    ensures forall x :: x in b ==> x == e || x in a
  {
    forall x | x in b ensures x == e || x in a {
      assert x in multiset(b);
    }
  }

  lemma {:induction false} InsertUnique(e: Entry, s: seq<Entry>, le: (string, string) -> bool)
    requires UniqueNames(s)
    requires forall x :: x in s ==> x.name != e.name
    ensures UniqueNames(Insert(e, s, le))
    decreases |s|
  {
    if s == [] {
    } else if le(s[0].name, e.name) {
      ConsUnique(e, s);
    } else {
      var tail := Insert(e, s[1..], le);
      assert UniqueNames(s[1..]);
      InsertUnique(e, s[1..], le);
      InsertPermutes(e, s[1..], le);
      UniqueByMultiset(s[1..], tail, e);
      forall y | y in tail ensures y.name != s[0].name {
        if y != e {
          var k :| 0 <= k < |s[1..]| && s[1..][k] == y;
          assert s[k + 1] == y;
        }
      }
      ConsUnique(s[0], tail);
    }
  }

  /** An entry whose name is new can go in front of a listing. */
  lemma ConsUnique(x: Entry, s: seq<Entry>)
    requires UniqueNames(s)
    requires forall y :: y in s ==> y.name != x.name
    ensures UniqueNames([x] + s)
  {
    var r := [x] + s;
    forall i, j | 0 <= i < j < |r| ensures r[i].name != r[j].name {
      assert r[j] == s[j - 1] && r[j] in s;
      if i > 0 {
        assert r[i] == s[i - 1];
      }
    }
  }

  /** Sorting keeps the names of a listing distinct. */
  lemma {:induction false} SortDescUnique(es: seq<Entry>, le: (string, string) -> bool)
    requires UniqueNames(es)
    ensures UniqueNames(SortDesc(es, le))
    decreases |es|
  {
    if es != [] {
      assert UniqueNames(es[1..]);
      SortDescUnique(es[1..], le);
      SortDescPermutes(es[1..], le);
      forall x | x in SortDesc(es[1..], le) ensures x.name != es[0].name {
        assert x in multiset(SortDesc(es[1..], le));
        var k :| 0 <= k < |es[1..]| && es[1..][k] == x;
        assert es[k + 1] == x;
      }
      InsertUnique(es[0], SortDesc(es[1..], le), le);
    }
  }
}
