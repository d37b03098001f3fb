/**
 * Generic operations on a table held as a sequence of rows: the filtering
 * that a `DELETE ... WHERE` performs, the first-match lookup of a
 * `SELECT ... WHERE`, and the newest-first ordering of an `ORDER BY ... DESC`.
 * A row's column is read through a `key` function.
 */
module Rows {
  import opened Wrappers

  /** Keys strictly ascend along `s`: the shape of a table whose primary key
      comes from a serial counter and whose rows sit in insertion order. */
  ghost predicate StrictlyIncreasing<T>(s: seq<T>, key: T -> int)
  {
    forall i, j :: 0 <= i < j < |s| ==> key(s[i]) < key(s[j])
  }

  /** Keys never increase along `s`: the order of `ORDER BY key DESC`. */
  ghost predicate NewestFirst<T>(s: seq<T>, key: T -> int)
  {
    forall i, j :: 0 <= i < j < |s| ==> key(s[i]) >= key(s[j])
  }

  /** No two rows of `s` share a key. */
  ghost predicate DistinctKeys<T>(s: seq<T>, key: T -> int)
  {
    forall i, j :: 0 <= i < j < |s| ==> key(s[i]) != key(s[j])
  }

  /** The rows of `s` that satisfy `keep`, in their original order: what a
      `DELETE ... WHERE not keep(row)` leaves in the table. */
  function Filter<T(!new)>(s: seq<T>, keep: T -> bool): (r: seq<T>)
    ensures |r| <= |s|
    ensures forall x :: x in r <==> x in s && keep(x)
  {
    if s == [] then []
    else
      assert s == [s[0]] + s[1..];
      if keep(s[0]) then [s[0]] + Filter(s[1..], keep) else Filter(s[1..], keep)
  }

  /** Filtering keeps the rows that remain in their relative order, so a
      table sorted by its serial key stays sorted. */
  lemma {:induction false} FilterKeepsIncreasing<T(!new)>(s: seq<T>, keep: T -> bool, key: T -> int)
    requires StrictlyIncreasing(s, key)
    ensures StrictlyIncreasing(Filter(s, keep), key)
  {
    if s != [] {
      FilterKeepsIncreasing(s[1..], keep, key);
      var rest := Filter(s[1..], keep);
      forall y | y in rest
        ensures key(s[0]) < key(y)
      {
        var k :| 0 <= k < |s[1..]| && s[1..][k] == y;
        assert s[k + 1] == y;
      }
    }
  }

  /** Filtering by a condition that every row meets removes nothing. */
  lemma {:induction false} FilterKeepsAll<T(!new)>(s: seq<T>, keep: T -> bool)
    requires forall x :: x in s ==> keep(x)
    ensures Filter(s, keep) == s
  {
    if s != [] {
      assert s == [s[0]] + s[1..];
      FilterKeepsAll(s[1..], keep);
    }
  }

  /** The first row of `s` that satisfies `matches`, if any: the row that
      `const [row] = await select().where(...)` binds. */
  function Find<T>(s: seq<T>, matches: T -> bool): (r: Option<T>)
    ensures r.Some? ==> r.value in s && matches(r.value)
    ensures r.None? <==> forall x :: x in s ==> !matches(x)
  {
    if s == [] then None
    else if matches(s[0]) then Some(s[0])
    else
      assert forall x :: x in s ==> x == s[0] || x in s[1..];
      Find(s[1..], matches)
  }

  /** Inserts `x` into the newest-first sequence `s` in front of the first row
      whose key is not larger than its own. */
  function InsertNewestFirst<T(!new)>(x: T, s: seq<T>, key: T -> int): (r: seq<T>)
    requires NewestFirst(s, key)
    ensures NewestFirst(r, key)
    ensures multiset(r) == multiset(s) + multiset{x}
    ensures forall y :: y in r <==> y == x || y in s
  {
    FirstIsNewest(s, key);
    if s == [] || key(x) >= key(s[0]) then
      ConsNewestFirst(x, s, key);
      [x] + s
    else
      var rest := InsertNewestFirst(x, s[1..], key);
      assert s == [s[0]] + s[1..];
      ConsNewestFirst(s[0], rest, key);
      [s[0]] + rest
  }

  /** In a newest-first sequence the first row has the largest key. */
  lemma FirstIsNewest<T>(s: seq<T>, key: T -> int)
    requires NewestFirst(s, key)
    ensures forall y :: y in s ==> key(y) <= key(s[0])
  {
    forall y | y in s
      ensures key(y) <= key(s[0])
    {
      var j :| 0 <= j < |s| && s[j] == y;
      assert j == 0 || key(s[0]) >= key(s[j]);
    }
  }

  /** A row whose key is at least every key of a newest-first sequence can
      lead it. */
  lemma ConsNewestFirst<T>(h: T, t: seq<T>, key: T -> int)
    requires NewestFirst(t, key)
    requires forall y :: y in t ==> key(y) <= key(h)
    ensures NewestFirst([h] + t, key)
  {
    var r := [h] + t;
    forall i, j | 0 <= i < j < |r|
      ensures key(r[i]) >= key(r[j])
    {
      assert r[j] == t[j - 1];
      assert i == 0 || r[i] == t[i - 1];
    }
  }

  /** The rows of `s` ordered by `key`, largest first; rows with equal keys
      keep their relative order. */
  function SortNewestFirst<T(!new)>(s: seq<T>, key: T -> int): (r: seq<T>)
    ensures NewestFirst(r, key)
    ensures multiset(r) == multiset(s)
    ensures forall y :: y in r <==> y in s
    ensures |r| == |s|
  {
    if s == [] then []
    else
      assert s == [s[0]] + s[1..];
      InsertNewestFirst(s[0], SortNewestFirst(s[1..], key), key)
  }

  /** Sorting by `key` does not make two rows share an `id`: a table with a
      primary key lists each of its rows once. */
  lemma {:induction false} SortKeepsDistinct<T(!new)>(s: seq<T>, key: T -> int, id: T -> int)
    requires DistinctKeys(s, id)
    ensures DistinctKeys(SortNewestFirst(s, key), id)
  {
    if s != [] {
      var tail := SortNewestFirst(s[1..], key);
      SortKeepsDistinct(s[1..], key, id);
      HeadKeyIsOwn(s, id);
      InsertKeepsDistinct(s[0], tail, key, id);
    }
  }

  lemma {:induction false} InsertKeepsDistinct<T(!new)>(x: T, s: seq<T>, key: T -> int, id: T -> int)
    requires NewestFirst(s, key) && DistinctKeys(s, id)
    requires forall y :: y in s ==> id(y) != id(x)
    ensures DistinctKeys(InsertNewestFirst(x, s, key), id)
  {
    if s == [] || key(x) >= key(s[0]) {
      ConsKeepsDistinct(x, s, id);
    } else {
      assert s == [s[0]] + s[1..];
      InsertKeepsDistinct(x, s[1..], key, id);
      HeadKeyIsOwn(s, id);
      ConsKeepsDistinct(s[0], InsertNewestFirst(x, s[1..], key), id);
    }
  }

  /** In a sequence without repeated keys, no later row shares the first
      row's key. */
  lemma HeadKeyIsOwn<T>(s: seq<T>, id: T -> int)
    requires s != [] && DistinctKeys(s, id)
    ensures forall y :: y in s[1..] ==> id(y) != id(s[0])
  {
    forall y | y in s[1..]
      ensures id(y) != id(s[0])
    {
      var k :| 0 <= k < |s[1..]| && s[1..][k] == y;
      assert s[k + 1] == y;
    }
  }

  lemma ConsKeepsDistinct<T>(h: T, t: seq<T>, key: T -> int)
    requires DistinctKeys(t, key)
    requires forall y :: y in t ==> key(y) != key(h)
    ensures DistinctKeys([h] + t, key)
  {
    var r := [h] + t;
    forall i, j | 0 <= i < j < |r|
      ensures key(r[i]) != key(r[j])
    {
      assert r[j] == t[j - 1];
      if i > 0 {
        assert r[i] == t[i - 1];
      }
    }
  }

  /** Under a strictly ascending key, a key value names at most one row. */
  lemma {:induction false} KeyIdentifiesRow<T>(s: seq<T>, key: T -> int, x: T, y: T)
    requires StrictlyIncreasing(s, key)
    requires x in s && y in s && key(x) == key(y)
    ensures x == y
  {
    var i :| 0 <= i < |s| && s[i] == x;
    var j :| 0 <= j < |s| && s[j] == y;
    assert !(i < j) && !(j < i);
  }

  /** A serial key that strictly ascends is in particular a key that no two
      rows share. */
  lemma IncreasingIsDistinct<T>(s: seq<T>, key: T -> int)
    requires StrictlyIncreasing(s, key)
    ensures DistinctKeys(s, key)
  {
  }
}
