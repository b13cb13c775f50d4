/**
 * The handful of ORM query shapes the routers use, over a table held as a sequence of rows:
 * `findFirst({ where })`, `findMany({ where })`, `orderBy: { key: 'desc' }` and `take: 1`.
 * Rows are compared by an integer key (a timestamp or a date).
 */
module Query {
  import opened Base

  /** `findFirst({ where: p })`: some row satisfying `p`, or none when no row does. */
  function FindFirst<T(==)>(s: seq<T>, p: T -> bool): (r: Option<T>)
    ensures r.None? <==> forall i :: 0 <= i < |s| ==> !p(s[i])
    ensures r.Some? ==> r.value in s && p(r.value)
  {
    if s == [] then None
    else if p(s[0]) then Some(s[0])
    else FindFirst(s[1..], p)
  }

  /** `findMany({ where: p })`: the rows satisfying `p`, in table order; FilterCount gives each row's multiplicity. */
  function Filter<T(==)>(s: seq<T>, p: T -> bool): (r: seq<T>)
    ensures |r| <= |s|
    ensures forall i :: 0 <= i < |r| ==> r[i] in s && p(r[i])
    ensures forall i :: 0 <= i < |s| && p(s[i]) ==> s[i] in r
  {
    if s == [] then []
    else if p(s[0]) then [s[0]] + Filter(s[1..], p)
    else Filter(s[1..], p)
  }

  /** `findMany({ where: p })` keeps a matching row exactly as often as the table holds it, and drops every other row. */
  lemma {:induction false} FilterCount<T>(s: seq<T>, p: T -> bool, v: T)
    ensures multiset(Filter(s, p))[v] == if p(v) then multiset(s)[v] else 0
  {
    if s != [] {
      FilterCount(s[1..], p, v);
      assert s == [s[0]] + s[1..];
      if p(s[0]) {
        assert multiset(Filter(s, p)) == multiset{s[0]} + multiset(Filter(s[1..], p));
      }
    }
  }

  /** No two rows of `s` share a key. */
  predicate UniqueKeys<T, K(==)>(s: seq<T>, key: T -> K) {
    forall i, j :: 0 <= i < j < |s| ==> key(s[i]) != key(s[j])
  }

  /** Deleting rows never creates a duplicate key. */
  lemma {:induction false} FilterKeepsUniqueKeys<T, K>(s: seq<T>, p: T -> bool, key: T -> K)
    requires UniqueKeys(s, key)
    ensures UniqueKeys(Filter(s, p), key)
  {
    if s != [] {
      var tail := s[1..];
      assert UniqueKeys(tail, key) by {
        forall i, j | 0 <= i < j < |tail| ensures key(tail[i]) != key(tail[j]) {
          assert tail[i] == s[i + 1] && tail[j] == s[j + 1];
        }
      }
      FilterKeepsUniqueKeys(tail, p, key);
      var rest := Filter(tail, p);
      if p(s[0]) {
        var r := [s[0]] + rest;
        forall i, j | 0 <= i < j < |r| ensures key(r[i]) != key(r[j]) {
          if i == 0 {
            assert r[j] == rest[j - 1] && r[j] in tail;
            var k :| 0 <= k < |tail| && tail[k] == r[j];
            assert s[k + 1] == r[j];
          } else {
            assert r[i] == rest[i - 1] && r[j] == rest[j - 1];
          }
        }
      }
    }
  }

  /** The rows are ordered by `key`, largest first (`orderBy: { key: 'desc' }`). */
  predicate SortedDesc<T>(s: seq<T>, key: T -> int) {
    forall i, j :: 0 <= i < j < |s| ==> key(s[i]) >= key(s[j])
  }

  /** A row whose key is at least every key of an ordered list may go in front of it. */
  lemma ConsSorted<T>(h: T, t: seq<T>, key: T -> int)
    requires SortedDesc(t, key)
    requires forall i :: 0 <= i < |t| ==> key(t[i]) <= key(h)
    ensures SortedDesc([h] + t, key)
  {
    var r := [h] + t;
    forall i, j | 0 <= i < j < |r| ensures key(r[i]) >= key(r[j]) {
      assert r[j] == t[j - 1];
      if i > 0 { assert r[i] == t[i - 1]; }
    }
  }

  lemma TailSorted<T>(s: seq<T>, key: T -> int)
    requires s != [] && SortedDesc(s, key)
    ensures SortedDesc(s[1..], key)
    ensures forall i :: 0 <= i < |s| - 1 ==> key(s[1..][i]) <= key(s[0])
  {
    var tail := s[1..];
    forall i, j | 0 <= i < j < |tail| ensures key(tail[i]) >= key(tail[j]) {
      assert tail[i] == s[i + 1] && tail[j] == s[j + 1];
    }
    forall i | 0 <= i < |tail| ensures key(tail[i]) <= key(s[0]) {
      assert tail[i] == s[i + 1];
    }
  }

  /** Puts `x` into an already ordered sequence of rows. */
  function InsertDesc<T(==)>(x: T, s: seq<T>, key: T -> int): (r: seq<T>)
    requires SortedDesc(s, key)
    ensures SortedDesc(r, key)
    ensures multiset(r) == multiset(s) + multiset{x}
  {
    if s == [] then [x]
    else if key(x) >= key(s[0]) then
      TailSorted(s, key);
      assert forall j :: 0 <= j < |s| ==> key(s[j]) <= key(x) by {
        forall j | 0 <= j < |s| ensures key(s[j]) <= key(x) {
          if j > 0 { assert s[j] == s[1..][j - 1]; }
        }
      }
      ConsSorted(x, s, key);
      [x] + s
    else
      var tail := s[1..];
      TailSorted(s, key);
      assert s == [s[0]] + tail;
      var rest := InsertDesc(x, tail, key);
      assert forall i :: 0 <= i < |rest| ==> key(rest[i]) <= key(s[0]) by {
        forall i | 0 <= i < |rest| ensures key(rest[i]) <= key(s[0]) {
          assert rest[i] in multiset(rest);
          if rest[i] != x {
            assert rest[i] in multiset(tail);
            var j :| 0 <= j < |tail| && tail[j] == rest[i];
          }
        }
      }
      ConsSorted(s[0], rest, key);
      assert multiset([s[0]] + rest) == multiset{s[0]} + multiset(rest);
      [s[0]] + rest
  }

  /** `orderBy: { key: 'desc' }`: the rows of `s`, no more and no fewer, largest key first. */
  function SortDesc<T(==)>(s: seq<T>, key: T -> int): (r: seq<T>)
    ensures SortedDesc(r, key)
    ensures multiset(r) == multiset(s)
  {
    if s == [] then []
    else
      assert s == [s[0]] + s[1..];
      InsertDesc(s[0], SortDesc(s[1..], key), key)
  }

  /** `r` is what `orderBy: { key: 'desc' }, take: 1` may return for `s`: a row with the largest key. */
  predicate IsLatestOf<T(==)>(r: seq<T>, s: seq<T>, key: T -> int) {
    |r| <= 1 &&
    (r == [] <==> s == []) &&
    (r != [] ==> r[0] in s && forall i :: 0 <= i < |s| ==> key(s[i]) <= key(r[0]))
  }

  lemma SortedHeadIsMax<T>(s: seq<T>, key: T -> int, x: T)
    requires SortedDesc(s, key) && x in s
    ensures key(x) <= key(s[0])
  {
  }

  /** `orderBy: { key: 'desc' }, take: 1`. Ties are broken by the sort; only "some maximal row" is promised. */
  function Latest<T(==)>(s: seq<T>, key: T -> int): (r: seq<T>)
    ensures IsLatestOf(r, s, key)
  {
    var sorted := SortDesc(s, key);
    if sorted == [] then
      assert |multiset(s)| == 0;
      []
    else
      assert sorted[0] in multiset(s);
      assert |multiset(s)| != 0;
      assert forall i :: 0 <= i < |s| ==> key(s[i]) <= key(sorted[0]) by {
        forall i | 0 <= i < |s| ensures key(s[i]) <= key(sorted[0]) {
          assert s[i] in multiset(sorted);
          SortedHeadIsMax(sorted, key, s[i]);
        }
      }
      [sorted[0]]
  }
}
