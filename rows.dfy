/** The three query shapes the handlers use on a store: take the first row a
    WHERE clause selects, keep every row it selects, and ORDER BY a column. */
module Rows {
  import opened Records

  /** `rows[0]` of a `SELECT ... WHERE p`, or `None` when no row matches. */
  function First<T>(xs: seq<T>, p: T -> bool): (r: Option<T>)
    ensures r.Some? ==> r.value in xs && p(r.value)
    ensures r.None? ==> forall i :: 0 <= i < |xs| ==> !p(xs[i])
  {
    if xs == [] then None
    else if p(xs[0]) then Some(xs[0])
    else First(xs[1..], p)
  }

  /** The rows of a `SELECT ... WHERE p`, as a bag: every selected row as
      often as the store holds it, and nothing else. */
  function Filter<T(!new)>(xs: seq<T>, p: T -> bool): (r: seq<T>)
    ensures forall x :: multiset(r)[x] == if p(x) then multiset(xs)[x] else 0
    ensures forall x :: x in r <==> x in xs && p(x)
  {
    if xs == [] then []
    else
      var rest := Filter(xs[1..], p);
      assert xs == [xs[0]] + xs[1..];
      if p(xs[0]) then [xs[0]] + rest else rest
  }

  /** `xs` runs in non-decreasing order of `rank`. */
  predicate Ascending<T>(xs: seq<T>, rank: T -> int) {
    forall i, j :: 0 <= i < j < |xs| ==> rank(xs[i]) <= rank(xs[j])
  }

  /** Places `x` in the already ordered `xs` before the first row that ranks
      at least as high. */
  function Insert<T>(x: T, xs: seq<T>, rank: T -> int): (r: seq<T>)
    requires Ascending(xs, rank)
    ensures multiset(r) == multiset(xs) + multiset{x}
    ensures Ascending(r, rank)
  {
    if xs == [] || rank(x) <= rank(xs[0]) then
      assert forall j :: 0 <= j < |xs| ==> rank(x) <= rank(xs[j]);
      [x] + xs
    else
      var rest := Insert(x, xs[1..], rank);
      assert xs == [xs[0]] + xs[1..];
      forall k | 0 <= k < |rest|
        ensures rank(xs[0]) <= rank(rest[k])
      {
        AboveFirst(rest[k], x, xs, rank, rest);
      }
      [xs[0]] + rest
  }

  /** A row of `rest`, which holds `x` and the tail of `xs`, ranks no lower
      than the head of `xs` when `x` does not. */
  lemma AboveFirst<T>(y: T, x: T, xs: seq<T>, rank: T -> int, rest: seq<T>)
    requires Ascending(xs, rank) && xs != [] && rank(xs[0]) < rank(x)
    requires multiset(rest) == multiset(xs[1..]) + multiset{x} && y in rest
    ensures rank(xs[0]) <= rank(y)
  {
    assert y in multiset(rest);
    if y != x {
      assert y in multiset(xs[1..]);
      var j :| 0 <= j < |xs[1..]| && xs[1..][j] == y;
      assert xs[j + 1] == y;
    }
  }

  /** `ORDER BY rank ASC`: the same rows, ordered by `rank`. */
  function SortBy<T>(xs: seq<T>, rank: T -> int): (r: seq<T>)
    ensures multiset(r) == multiset(xs)
    ensures Ascending(r, rank)
  {
    if xs == [] then []
    else
      assert xs == [xs[0]] + xs[1..];
      Insert(xs[0], SortBy(xs[1..], rank), rank)
  }
}
