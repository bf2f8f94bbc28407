/** `sorted({...})`: the strictly ordered list of a collection's distinct values. */
module Ordering {

  ghost predicate StrictTotal<T(!new)>(less: (T, T) -> bool) {
    && (forall x :: !less(x, x))
    && (forall x, y :: x != y ==> less(x, y) || less(y, x))
    && (forall x, y, z :: less(x, y) && less(y, z) ==> less(x, z))
  }

  ghost predicate Strict<T>(less: (T, T) -> bool, s: seq<T>) {
    forall i, j :: 0 <= i < j < |s| ==> less(s[i], s[j])
  }

  function Placed<T(==,!new)>(less: (T, T) -> bool, x: T, s: seq<T>): (r: seq<T>)
    ensures forall y :: y in r <==> y == x || y in s
  {
    if s == [] then [x]
    else if x == s[0] then s
    else if less(x, s[0]) then [x] + s
    else
      assert forall y :: y in s <==> y == s[0] || y in s[1..];
      [s[0]] + Placed(less, x, s[1..])
  }

  function Distinct<T(==,!new)>(less: (T, T) -> bool, xs: seq<T>): (r: seq<T>)
    ensures forall y :: y in r <==> y in xs
  {
    if xs == [] then []
    else
      assert forall y :: y in xs <==> y == xs[0] || y in xs[1..];
      Placed(less, xs[0], Distinct(less, xs[1..]))
  }

  lemma {:induction false} PlacedStrict<T(!new)>(less: (T, T) -> bool, x: T, s: seq<T>)
    requires StrictTotal(less) && Strict(less, s)
    ensures Strict(less, Placed(less, x, s))
  {
    if s != [] && x != s[0] {
      if less(x, s[0]) {
        forall y | y in s
          ensures less(x, y)
        {
          if y != s[0] { assert less(s[0], y); }
        }
      } else {
        PlacedStrict(less, x, s[1..]);
        forall y | y in Placed(less, x, s[1..])
          ensures less(s[0], y)
        {
        }
      }
    }
  }

  lemma {:induction false} DistinctStrict<T(!new)>(less: (T, T) -> bool, xs: seq<T>)
    requires StrictTotal(less)
    ensures Strict(less, Distinct(less, xs))
  {
    if xs != [] {
      DistinctStrict(less, xs[1..]);
      PlacedStrict(less, xs[0], Distinct(less, xs[1..]));
    }
  }

  /** A strictly ordered list is determined by the set of its values. */
  lemma {:induction false} StrictUnique<T(!new)>(less: (T, T) -> bool, s: seq<T>, t: seq<T>)
    requires StrictTotal(less) && Strict(less, s) && Strict(less, t)
    requires forall x :: x in s <==> x in t
    ensures s == t
  {
    assert t == [] || t[0] in t;
    if s != [] {
      assert s[0] in s && s[0] in t;
      StrictHead(less, s, t);
      forall x
        ensures x in s[1..] <==> x in t[1..]
      {
        StrictTail(less, s, x);
        StrictTail(less, t, x);
      }
      StrictUnique(less, s[1..], t[1..]);
    }
  }

  lemma StrictTail<T(!new)>(less: (T, T) -> bool, s: seq<T>, x: T)
    requires StrictTotal(less) && Strict(less, s) && s != []
    ensures x in s[1..] <==> x in s && x != s[0]
  {
    assert s == [s[0]] + s[1..];
    if x in s[1..] {
      var i :| 0 <= i < |s[1..]| && s[1..][i] == x;
      assert less(s[0], s[i + 1]);
    }
  }

  lemma StrictHead<T(!new)>(less: (T, T) -> bool, s: seq<T>, t: seq<T>)
    requires StrictTotal(less) && Strict(less, s) && Strict(less, t) && s != [] && t != []
    requires forall x :: x in s <==> x in t
    ensures s[0] == t[0]
  {
    assert s[0] in s && s[0] in t;
    var i :| 0 <= i < |t| && t[i] == s[0];
    assert t[0] in t && t[0] in s;
    var j :| 0 <= j < |s| && s[j] == t[0];
  }
}
