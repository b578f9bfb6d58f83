/**
 * A database table as the sequence of its rows in storage order, and the queries the
 * repositories run on it: `findOne` (the first match), `find` (every match), `count`,
 * `findByIds`, and the bulk `update ... where`.
 */
module Tables {
  import opened Wrappers

  /** `findOne({ where })`: the first row that matches, if any. */
  function FindFirst<R>(rows: seq<R>, p: R -> bool): (r: Option<R>)
    ensures r.Some? ==> r.value in rows && p(r.value)
    ensures r.None? <==> forall x :: x in rows ==> !p(x)
  {
    if |rows| == 0 then None
    else if p(rows[0]) then Some(rows[0])
    else
      var r := FindFirst(rows[1..], p);
      assert forall x :: x in rows ==> x == rows[0] || x in rows[1..];
      r
  }

  /** `find({ where })`: the matching rows, in storage order. */
  function Filter<R>(rows: seq<R>, p: R -> bool): (r: seq<R>)
    ensures |r| <= |rows|
    ensures forall x :: x in r ==> x in rows && p(x)
    ensures forall x :: x in rows && p(x) ==> x in r
    ensures forall x :: x in rows ==> multiset(r)[x] == if p(x) then multiset(rows)[x] else 0
  {
    if |rows| == 0 then []
    else
      var rest := Filter(rows[1..], p);
      assert forall x :: x in rows ==> x == rows[0] || x in rows[1..];
      assert rows == [rows[0]] + rows[1..];
      if p(rows[0]) then [rows[0]] + rest else rest
  }

  /** `count({ where })`. */
  function Count<R>(rows: seq<R>, p: R -> bool): (n: nat)
    ensures n <= |rows|
    ensures n == 0 <==> forall x :: x in rows ==> !p(x)
  {
    var f := Filter(rows, p);
    assert f != [] ==> f[0] in f;
    |f|
  }

  /** `update(where, changes)`: every matching row gets the changes, the others are kept. */
  function UpdateWhere<R>(rows: seq<R>, p: R -> bool, f: R -> R): (r: seq<R>)
    ensures |r| == |rows|
    ensures forall i :: 0 <= i < |rows| ==> r[i] == if p(rows[i]) then f(rows[i]) else rows[i]
  {
    seq(|rows|, i requires 0 <= i < |rows| => if p(rows[i]) then f(rows[i]) else rows[i])
  }

  /** No two rows share a key: the primary key or a unique column. */
  predicate UniqueBy<R, K(==)>(rows: seq<R>, key: R -> K) {
    forall i, j :: 0 <= i < j < |rows| ==> key(rows[i]) != key(rows[j])
  }

  predicate NoDuplicates<T(==)>(xs: seq<T>) {
    forall i, j :: 0 <= i < j < |xs| ==> xs[i] != xs[j]
  }

  /** `[...new Set(xs)]`: the first occurrence of each element, in order. */
  function Distinct<T(==)>(xs: seq<T>): (d: seq<T>)
    ensures forall x :: x in d ==> x in xs
    ensures forall x :: x in xs ==> x in d
    ensures NoDuplicates(d)
    ensures |d| <= |xs|
    ensures |d| == |xs| <==> NoDuplicates(xs)
  {
    if |xs| == 0 then []
    else
      var init := xs[..|xs| - 1];
      var last := xs[|xs| - 1];
      var d := Distinct(init);
      assert xs == init + [last];
      assert forall x :: x in xs ==> x in init || x == last;
      if last in d then
        assert !NoDuplicates(xs) by {
          var k :| 0 <= k < |init| && init[k] == last;
          assert xs[k] == xs[|xs| - 1];
        }
        d
      else
        assert NoDuplicates(init) ==> NoDuplicates(xs) by {
          if NoDuplicates(init) {
            forall i, j | 0 <= i < j < |xs| ensures xs[i] != xs[j] {
              if j == |xs| - 1 { assert xs[i] in init; }
            }
          }
        }
        assert NoDuplicates(xs) ==> NoDuplicates(init);
        d + [last]
  }

  /** The rows whose key is one of `keys`, once each. */
  function RowsWithKeys<R>(rows: seq<R>, key: R -> Id, keys: seq<Id>): (r: seq<R>)
    requires NoDuplicates(keys)
    ensures |r| <= |keys|
    ensures |r| == |keys| <==> forall k :: k in keys ==> exists x :: x in rows && key(x) == k
    ensures forall x :: x in r ==> x in rows && key(x) in keys
    ensures forall k :: k in keys && (exists x :: x in rows && key(x) == k) ==> exists y :: y in r && key(y) == k
  {
    if |keys| == 0 then []
    else
      var rest := RowsWithKeys(rows, key, keys[1..]);
      var hit := FindFirst(rows, x => key(x) == keys[0]);
      assert forall k :: k in keys <==> k == keys[0] || k in keys[1..];
      if hit.Some? then
        assert forall y :: y in rest ==> y in [hit.value] + rest;
        [hit.value] + rest
      else
        assert keys[0] in keys && !(exists x :: x in rows && key(x) == keys[0]);
        assert |rest| < |keys|;
        rest
  }

  type Id = string

  /**
   * `findByIds(ids)`: the existing rows with those ids, each once. It returns as many rows as
   * it was given ids exactly when the ids are distinct and all exist.
   */
  function FindByIds<R>(rows: seq<R>, key: R -> Id, ids: seq<Id>): (r: seq<R>)
    ensures ids == [] ==> r == []
    ensures |r| <= |ids|
    ensures |r| == |ids| <==> NoDuplicates(ids) && forall k :: k in ids ==> exists x :: x in rows && key(x) == k
    ensures forall x :: x in r ==> x in rows && key(x) in ids
    ensures forall k :: k in ids && (exists x :: x in rows && key(x) == k) ==> exists y :: y in r && key(y) == k
  {
    if |ids| == 0 then [] else RowsWithKeys(rows, key, Distinct(ids))
  }
  /** Every two rows, taken in storage order, are related by `rel`. */
  predicate Pairwise<R>(rows: seq<R>, rel: (R, R) -> bool) {
    forall i, j :: 0 <= i < j < |rows| ==> rel(rows[i], rows[j])
  }

  /** Deleting rows keeps any relation that held between every two of them. */
  lemma {:induction false} FilterKeepsPairwise<R>(rows: seq<R>, p: R -> bool, rel: (R, R) -> bool)
    requires Pairwise(rows, rel)
    ensures Pairwise(Filter(rows, p), rel)
    decreases |rows|
  {
    if |rows| > 0 {
      FilterKeepsPairwise(rows[1..], p, rel);
      var rest := Filter(rows[1..], p);
      if p(rows[0]) {
        forall x | x in rest ensures rel(rows[0], x) {
          var k :| 0 <= k < |rows[1..]| && rows[1..][k] == x;
          assert rows[k + 1] == x;
        }
        ConsPairwise(rows[0], rest, rel);
      }
    }
  }

  /** A row related to every later row, put in front of rows related pairwise, keeps them related pairwise. */
  lemma ConsPairwise<R>(a: R, rest: seq<R>, rel: (R, R) -> bool)
    requires Pairwise(rest, rel) && forall x :: x in rest ==> rel(a, x)
    ensures Pairwise([a] + rest, rel)
  {
    var r := [a] + rest;
    forall i, j | 0 <= i < j < |r| ensures rel(r[i], r[j]) {
      if i == 0 {
        assert r[j] in rest;
      } else {
        assert r[i] == rest[i - 1] && r[j] == rest[j - 1];
      }
    }
  }

  /** An update that keeps every pair related, changed or not, keeps the relation over the table. */
  lemma UpdateWhereKeepsPairwise<R>(rows: seq<R>, p: R -> bool, f: R -> R, rel: (R, R) -> bool)
    requires Pairwise(rows, rel)
    requires forall x, y :: rel(x, y) ==> rel(f(x), y) && rel(x, f(y)) && rel(f(x), f(y))
    ensures Pairwise(UpdateWhere(rows, p, f), rel)
  {
    var r := UpdateWhere(rows, p, f);
    forall i, j | 0 <= i < j < |r| ensures rel(r[i], r[j]) {
      assert rel(rows[i], rows[j]);
    }
  }

  /** An update that keeps its rows selected and is settled after one application changes nothing when repeated. */
  lemma UpdateWhereTwice<R>(rows: seq<R>, p: R -> bool, f: R -> R)
    requires forall x :: p(x) ==> p(f(x)) && f(f(x)) == f(x)
    ensures UpdateWhere(UpdateWhere(rows, p, f), p, f) == UpdateWhere(rows, p, f)
  {
    var once := UpdateWhere(rows, p, f);
    var twice := UpdateWhere(once, p, f);
    forall i | 0 <= i < |rows| ensures twice[i] == once[i] {
      if p(rows[i]) {
        assert once[i] == f(rows[i]);
      }
    }
  }
}
