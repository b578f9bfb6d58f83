/**
 * The ordering a database applies for `ORDER BY <text column> ASC`: the lexicographic order
 * on code points of a sort key, which the repositories take to be the collation key of the
 * column (see Text.SameText), and an insertion sort that realises it. Rows with equal keys
 * come out in no promised order, as in the database.
 */
module Sorting {

  /** `a` sorts no later than `b`. */
  predicate StrLe(a: string, b: string)
    decreases |a|
  {
    |a| == 0 || (|b| > 0 && (a[0] < b[0] || (a[0] == b[0] && StrLe(a[1..], b[1..]))))
  }

  lemma {:induction false} StrLeTotal(a: string, b: string)
    ensures StrLe(a, b) || StrLe(b, a)
    decreases |a|
  {
    if |a| > 0 && |b| > 0 && a[0] == b[0] {
      StrLeTotal(a[1..], b[1..]);
    }
  }

  lemma {:induction false} StrLeTrans(a: string, b: string, c: string)
    requires StrLe(a, b) && StrLe(b, c)
    ensures StrLe(a, c)
    decreases |a|
  {
    if |a| > 0 && a[0] == b[0] && b[0] == c[0] {
      StrLeTrans(a[1..], b[1..], c[1..]);
    }
  }

  /** The rows are in ascending order of their key. */
  predicate SortedBy<T>(xs: seq<T>, key: T -> string) {
    forall i, j :: 0 <= i < j < |xs| ==> StrLe(key(xs[i]), key(xs[j]))
  }

  /** Inserts `x` after every row whose key does not sort after it. */
  function InsertBy<T>(x: T, xs: seq<T>, key: T -> string): (r: seq<T>)
    requires SortedBy(xs, key)
    ensures SortedBy(r, key)
    ensures multiset(r) == multiset(xs) + multiset{x}
  {
    if |xs| == 0 then [x]
    else if StrLe(key(x), key(xs[0])) && !StrLe(key(xs[0]), key(x)) then
      InsertFront(x, xs, key);
      [x] + xs
    else
      SortedTail(xs, key);
      var rest := InsertBy(x, xs[1..], key);
      StrLeTotal(key(x), key(xs[0]));
      HeadStaysFirst(xs, x, rest, key);
      [xs[0]] + rest
  }

  /** A row that sorts before the first of sorted rows can go in front of them. */
  lemma InsertFront<T>(x: T, xs: seq<T>, key: T -> string)
    requires |xs| > 0 && SortedBy(xs, key) && StrLe(key(x), key(xs[0]))
    ensures SortedBy([x] + xs, key)
  {
    forall j | 0 <= j < |xs| ensures StrLe(key(x), key(xs[j])) {
      if j > 0 { StrLeTrans(key(x), key(xs[0]), key(xs[j])); }
    }
    var r := [x] + xs;
    forall i, j | 0 <= i < j < |r| ensures StrLe(key(r[i]), key(r[j])) {
      if i == 0 {
        assert r[j] == xs[j - 1];
      } else {
        assert r[i] == xs[i - 1] && r[j] == xs[j - 1];
      }
    }
  }

  /** The rows after the first of sorted rows are sorted. */
  lemma SortedTail<T>(xs: seq<T>, key: T -> string)
    requires |xs| > 0 && SortedBy(xs, key)
    ensures SortedBy(xs[1..], key)
  {
    forall i, j | 0 <= i < j < |xs| - 1 ensures StrLe(key(xs[1..][i]), key(xs[1..][j])) {
      assert xs[1..][i] == xs[i + 1] && xs[1..][j] == xs[j + 1];
    }
  }

  /** The first row stays first when a row sorting no earlier is inserted into the others. */
  lemma HeadStaysFirst<T>(xs: seq<T>, x: T, rest: seq<T>, key: T -> string)
    requires |xs| > 0 && SortedBy(xs, key) && StrLe(key(xs[0]), key(x))
    requires SortedBy(rest, key) && multiset(rest) == multiset(xs[1..]) + multiset{x}
    ensures SortedBy([xs[0]] + rest, key)
    ensures multiset([xs[0]] + rest) == multiset(xs) + multiset{x}
  {
    assert xs == [xs[0]] + xs[1..];
    forall j | 0 <= j < |rest| ensures StrLe(key(xs[0]), key(rest[j])) {
      assert rest[j] in multiset(rest);
      if rest[j] != x {
        assert rest[j] in multiset(xs[1..]);
        var k :| 0 <= k < |xs[1..]| && xs[1..][k] == rest[j];
        assert xs[k + 1] == rest[j];
      }
    }
    var r := [xs[0]] + rest;
    forall i, j | 0 <= i < j < |r| ensures StrLe(key(r[i]), key(r[j])) {
      if i == 0 {
        assert r[j] == rest[j - 1];
      } else {
        assert r[i] == rest[i - 1] && r[j] == rest[j - 1];
      }
    }
  }

  /** The rows in ascending order of `key`: sorted, and a permutation of the input. */
  function SortBy<T>(xs: seq<T>, key: T -> string): (r: seq<T>)
    ensures SortedBy(r, key)
    ensures multiset(r) == multiset(xs)
  {
    if |xs| == 0 then []
    else
      assert xs == [xs[0]] + xs[1..];
      InsertBy(xs[0], SortBy(xs[1..], key), key)
  }
}
