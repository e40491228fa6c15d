/**
  The queryset operations the listings are built from, over a table held as a
  sequence of rows: `filter`, `distinct`/`union` (duplicate removal) and
  `order_by('-uploaded_at')`.
*/
module Queries {
  import opened Entities

  /** `filter(...)`: the rows satisfying `f`, in table order. */
  function Filter<T(!new)>(xs: seq<T>, f: T -> bool): (r: seq<T>)
    ensures |r| <= |xs|
    ensures forall x :: x in r <==> x in xs && f(x)
  {
    if |xs| == 0 then []
    else
      assert xs == [xs[0]] + xs[1..];
      var rest := Filter(xs[1..], f);
      if f(xs[0]) then [xs[0]] + rest else rest
  }

  /** Every earlier row stands in `rel` to every later one (used for the tables' uniqueness constraints). */
  predicate Pairwise<T>(xs: seq<T>, rel: (T, T) -> bool) {
    forall i, j :: 0 <= i < j < |xs| ==> rel(xs[i], xs[j])
  }

  /** Filtering keeps the surviving rows in their order, so pairwise constraints survive it. */
  lemma {:induction false} FilterPairwise<T(!new)>(xs: seq<T>, f: T -> bool, rel: (T, T) -> bool)
    requires Pairwise(xs, rel)
    ensures Pairwise(Filter(xs, f), rel)
  {
    if |xs| > 0 {
      var rest := xs[1..];
      assert Pairwise(rest, rel) by {
        forall i, j | 0 <= i < j < |rest|
          ensures rel(rest[i], rest[j])
        {
          assert rest[i] == xs[i + 1] && rest[j] == xs[j + 1];
        }
      }
      FilterPairwise(rest, f, rel);
      if f(xs[0]) {
        var r := Filter(xs, f);
        var fr := Filter(rest, f);
        assert r == [xs[0]] + fr;
        forall i, j | 0 <= i < j < |r|
          ensures rel(r[i], r[j])
        {
          if i == 0 {
            assert r[j] in rest;
            var k :| 0 <= k < |rest| && rest[k] == r[j];
            assert xs[k + 1] == r[j];
          } else {
            assert r[i] == fr[i - 1] && r[j] == fr[j - 1];
          }
        }
      }
    }
  }

  /** Appending a rejected row to rows that all pass leaves the filter's result unchanged. */
  lemma {:induction false} FilterDropsLast<T(!new)>(xs: seq<T>, y: T, f: T -> bool)
    requires forall x | x in xs :: f(x)
    requires !f(y)
    ensures Filter(xs + [y], f) == xs
  {
    if |xs| == 0 {
      assert xs + [y] == [y];
      assert Filter([y], f) == Filter([y][1..], f);
    } else {
      assert (xs + [y])[1..] == xs[1..] + [y];
      FilterDropsLast(xs[1..], y, f);
    }
  }

  lemma PrefixPairwise<T>(xs: seq<T>, k: nat, rel: (T, T) -> bool)
    requires Pairwise(xs, rel) && k <= |xs|
    ensures Pairwise(xs[..k], rel)
  {
    forall i, j | 0 <= i < j < k
      ensures rel(xs[..k][i], xs[..k][j])
    {
      assert xs[..k][i] == xs[i] && xs[..k][j] == xs[j];
    }
  }

  predicate NoDuplicates<T(==)>(xs: seq<T>) {
    forall i, j :: 0 <= i < j < |xs| ==> xs[i] != xs[j]
  }

  predicate NewestFirstOrder(us: seq<Upload>) {
    forall i, j :: 0 <= i < j < |us| ==> us[i].uploadedAt >= us[j].uploadedAt
  }

  /**
    Duplicate removal keeping the first occurrence of each row: the same rows,
    each once, in an order that keeps newest-first order.
  */
  function Distinct(xs: seq<Upload>): (r: seq<Upload>)
    ensures NoDuplicates(r)
    ensures forall x :: x in r <==> x in xs
    ensures NewestFirstOrder(xs) ==> NewestFirstOrder(r)
  {
    if |xs| == 0 then []
    else
      var init := xs[..|xs| - 1];
      var last := xs[|xs| - 1];
      assert xs == init + [last];
      var d := Distinct(init);
      if last in d then d
      else
        assert NewestFirstOrder(xs) ==> forall i :: 0 <= i < |d| ==> d[i].uploadedAt >= last.uploadedAt by {
          if NewestFirstOrder(xs) {
            forall i | 0 <= i < |d|
              ensures d[i].uploadedAt >= last.uploadedAt
            {
              assert d[i] in init;
              var k :| 0 <= k < |init| && init[k] == d[i];
              assert xs[k] == d[i];
            }
          }
        }
        d + [last]
  }

  /** Inserts `u` before the first row that is not newer than it. */
  function InsertNewestFirst(u: Upload, us: seq<Upload>): (r: seq<Upload>)
    requires NewestFirstOrder(us)
    ensures |r| == |us| + 1
    ensures r[0] == u || (|us| > 0 && r[0] == us[0])
    ensures NewestFirstOrder(r)
    ensures multiset(r) == multiset(us) + multiset{u}
  {
    if |us| == 0 then [u]
    else if u.uploadedAt >= us[0].uploadedAt then [u] + us
    else
      assert us == [us[0]] + us[1..];
      var rest := InsertNewestFirst(u, us[1..]);
      assert rest[0].uploadedAt <= us[0].uploadedAt;
      ConsNewestFirst(us[0], rest);
      [us[0]] + rest
  }

  /** A row no older than the head of a newest-first list can go in front of it. */
  lemma ConsNewestFirst(x: Upload, rest: seq<Upload>)
    requires NewestFirstOrder(rest)
    requires |rest| > 0 ==> rest[0].uploadedAt <= x.uploadedAt
    ensures NewestFirstOrder([x] + rest)
  {
    var r := [x] + rest;
    forall i, j | 0 <= i < j < |r|
      ensures r[i].uploadedAt >= r[j].uploadedAt
    {
      assert r[j] == rest[j - 1];
      if i > 0 {
        assert r[i] == rest[i - 1];
      } else if j > 1 {
        assert rest[0].uploadedAt >= rest[j - 1].uploadedAt;
      }
    }
  }

  /** `order_by('-uploaded_at')`: a newest-first permutation of the rows. */
  function NewestFirst(us: seq<Upload>): (r: seq<Upload>)
    ensures NewestFirstOrder(r)
    ensures multiset(r) == multiset(us)
  {
    if |us| == 0 then []
    else
      assert us == [us[0]] + us[1..];
      InsertNewestFirst(us[0], NewestFirst(us[1..]))
  }
}
