/** The three query shapes the repository runs against a table: a WHERE
    filter in table order, the First matching row, and a WHERE filter ordered
    by descending primary key with a LIMIT. A table is a sequence of rows in
    insertion order, so with auto-increment keys it is ascending by key. */
module Listing {
  import opened Rows

  /** Strictly ascending keys: the order auto-increment ids give a table. */
  ghost predicate Ascending<T>(s: seq<T>, key: T -> int) {
    forall i, j :: 0 <= i < j < |s| ==> key(s[i]) < key(s[j])
  }

  /** Strictly descending keys: `ORDER BY id DESC`. */
  ghost predicate Descending<T>(s: seq<T>, key: T -> int) {
    forall i, j :: 0 <= i < j < |s| ==> key(s[i]) > key(s[j])
  }

  function Min(a: nat, b: nat): nat { if a <= b then a else b }

  /** The rows that satisfy `keep`, in table order. */
  function Filter<T(!new)>(s: seq<T>, keep: T -> bool): (r: seq<T>)
    ensures |r| <= |s|
    ensures forall x :: x in r <==> x in s && keep(x)
    decreases |s|
  {
    if |s| == 0 then []
    else Filter(s[..|s| - 1], keep) + (if keep(s[|s| - 1]) then [s[|s| - 1]] else [])
  }

  /** A filter of an ascending table is ascending. */
  lemma {:induction false} FilterAscending<T(!new)>(s: seq<T>, keep: T -> bool, key: T -> int)
    requires Ascending(s, key)
    ensures Ascending(Filter(s, keep), key)
  {
    if |s| > 0 {
      var init := s[..|s| - 1];
      FilterAscending(init, keep, key);
      var r := Filter(init, keep);
      forall x | x in r ensures key(x) < key(s[|s| - 1]) {
        var i :| 0 <= i < |init| && init[i] == x;
      }
    }
  }

  /** The first row that satisfies `keep`; None stands for sql.ErrNoRows. */
  function First<T(!new)>(s: seq<T>, keep: T -> bool): (r: Option<T>)
    ensures r.None? <==> forall x :: x in s ==> !keep(x)
    ensures r.Some? ==> r.value in s && keep(r.value)
    decreases |s|
  {
    if |s| == 0 then None
    else if keep(s[0]) then Some(s[0])
    else First(s[1..], keep)
  }

  /** The rows that satisfy `keep`, last inserted first, at most `limit` of
      them: `WHERE ... ORDER BY id DESC LIMIT limit` on an ascending table. */
  function NewestFirst<T(!new)>(s: seq<T>, keep: T -> bool, limit: nat): (r: seq<T>)
    ensures |r| == Min(limit, |Filter(s, keep)|)
    ensures forall x :: x in r ==> x in s && keep(x)
    decreases |s|
  {
    if |s| == 0 || limit == 0 then []
    else if keep(s[|s| - 1]) then [s[|s| - 1]] + NewestFirst(s[..|s| - 1], keep, limit - 1)
    else NewestFirst(s[..|s| - 1], keep, limit)
  }

  /** Every row of an ascending table's prefix has a smaller key than its
      last row. */
  lemma LastIsNewest<T>(s: seq<T>, key: T -> int)
    requires Ascending(s, key) && |s| > 0
    ensures forall x :: x in s[..|s| - 1] ==> key(x) < key(s[|s| - 1])
  {
    forall x | x in s[..|s| - 1] ensures key(x) < key(s[|s| - 1]) {
      var i :| 0 <= i < |s| - 1 && s[i] == x;
    }
  }

  /** On an ascending table the listing is in strictly descending key order. */
  lemma {:induction false} NewestFirstDescending<T(!new)>(s: seq<T>, keep: T -> bool, limit: nat, key: T -> int)
    requires Ascending(s, key)
    ensures Descending(NewestFirst(s, keep, limit), key)
  {
    if |s| > 0 && limit > 0 {
      var init := s[..|s| - 1];
      var last := s[|s| - 1];
      LastIsNewest(s, key);
      if keep(last) {
        NewestFirstDescending(init, keep, limit - 1, key);
        var rest := NewestFirst(init, keep, limit - 1);
        var r := [last] + rest;
        forall i, j | 0 <= i < j < |r| ensures key(r[i]) > key(r[j]) {
          if i > 0 {
            assert r[i] == rest[i - 1] && r[j] == rest[j - 1];
          } else {
            assert r[j] == rest[j - 1] && rest[j - 1] in rest;
          }
        }
      } else {
        NewestFirstDescending(init, keep, limit, key);
      }
    }
  }

  /** Any matching row the listing leaves out is older than every row it
      returns, and that happens only once the limit is reached: the listing
      holds the `limit` newest matching rows. */
  lemma {:induction false} NewestFirstIsNewest<T(!new)>(s: seq<T>, keep: T -> bool, limit: nat, key: T -> int, x: T)
    requires Ascending(s, key)
    requires x in s && keep(x) && x !in NewestFirst(s, keep, limit)
    ensures |NewestFirst(s, keep, limit)| == limit
    ensures forall y :: y in NewestFirst(s, keep, limit) ==> key(y) > key(x)
  {
    if limit > 0 {
      var init := s[..|s| - 1];
      var last := s[|s| - 1];
      LastIsNewest(s, key);
      assert x != last || !keep(last);
      assert x in init by {
        var i :| 0 <= i < |s| && s[i] == x;
        assert init[i] == x;
      }
      assert Ascending(init, key) by {
        forall i, j | 0 <= i < j < |init| ensures key(init[i]) < key(init[j]) {
          assert init[i] == s[i] && init[j] == s[j];
        }
      }
      if keep(last) {
        NewestFirstIsNewest(init, keep, limit - 1, key, x);
      } else {
        NewestFirstIsNewest(init, keep, limit, key, x);
      }
    }
  }

  /** The listing holds the `limit` newest matching rows, for every row left out. */
  lemma NewestFirstComplete<T(!new)>(s: seq<T>, keep: T -> bool, limit: nat, key: T -> int)
    requires Ascending(s, key)
    ensures forall x :: x in s && keep(x) && x !in NewestFirst(s, keep, limit) ==>
      |NewestFirst(s, keep, limit)| == limit &&
      forall y :: y in NewestFirst(s, keep, limit) ==> key(y) > key(x)
  {
    forall x | x in s && keep(x) && x !in NewestFirst(s, keep, limit)
      ensures |NewestFirst(s, keep, limit)| == limit
      ensures forall y :: y in NewestFirst(s, keep, limit) ==> key(y) > key(x)
    {
      NewestFirstIsNewest(s, keep, limit, key, x);
    }
  }

  /** In an ascending table a row is determined by its key. */
  lemma KeyDetermines<T>(s: seq<T>, key: T -> int, x: T, i: int)
    requires Ascending(s, key)
    requires x in s && 0 <= i < |s| && key(x) == key(s[i])
    ensures x == s[i]
  {
    var j :| 0 <= j < |s| && s[j] == x;
  }
}
