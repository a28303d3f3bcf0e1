/** Python's `sorted` (with or without `key=`): a stable sort. It is modelled
    as insertion sort under an ordering `le`, which for `sorted(xs, key=f)`
    is `(a, b) => f(a) <= f(b)`. The lemmas pin the result down: it is
    ordered, a permutation of the input, and keeps the input order of
    elements that compare equal. */
module Sorting {

  ghost predicate IsTotalPreorder<T(!new)>(le: (T, T) -> bool) {
    && (forall a, b :: le(a, b) || le(b, a))
    && (forall a, b, c :: le(a, b) && le(b, c) ==> le(a, c))
  }

  ghost predicate Sorted<T>(s: seq<T>, le: (T, T) -> bool) {
    forall i, j :: 0 <= i < j < |s| ==> le(s[i], s[j])
  }

  /** Places `x` before the first element it is `le`, so after every element
      strictly below it: an element inserted this way precedes its equals. */
  function Insert<T>(x: T, s: seq<T>, le: (T, T) -> bool): (r: seq<T>)
    ensures multiset(r) == multiset(s) + multiset{x}
    ensures |r| == |s| + 1
    ensures forall y :: y in r ==> y == x || y in s
  {
    if s == [] || le(x, s[0]) then [x] + s
    else
      assert s == [s[0]] + s[1..];
      [s[0]] + Insert(x, s[1..], le)
  }

  function SortBy<T>(s: seq<T>, le: (T, T) -> bool): (r: seq<T>)
    ensures multiset(r) == multiset(s)
    ensures |r| == |s|
  {
    if s == [] then []
    else
      assert s == [s[0]] + s[1..];
      Insert(s[0], SortBy(s[1..], le), le)
  }

  /** The elements of `s` that compare equal to `x`, in order. */
  function EqualsOf<T>(s: seq<T>, x: T, le: (T, T) -> bool): seq<T> {
    if s == [] then []
    else if le(s[0], x) && le(x, s[0]) then [s[0]] + EqualsOf(s[1..], x, le)
    else EqualsOf(s[1..], x, le)
  }

  ghost predicate Stable<T(!new)>(r: seq<T>, s: seq<T>, le: (T, T) -> bool) {
    forall x :: EqualsOf(r, x, le) == EqualsOf(s, x, le)
  }

  lemma {:induction false} InsertSorted<T(!new)>(x: T, s: seq<T>, le: (T, T) -> bool)
    requires IsTotalPreorder(le)
    requires Sorted(s, le)
    ensures Sorted(Insert(x, s, le), le)
  {
    if s != [] && !le(x, s[0]) {
      var t := Insert(x, s[1..], le);
      assert Sorted(s[1..], le) by {
        forall i, j | 0 <= i < j < |s[1..]| ensures le(s[1..][i], s[1..][j]) {
          assert s[1..][i] == s[i + 1] && s[1..][j] == s[j + 1];
        }
      }
      InsertSorted(x, s[1..], le);
      var r := [s[0]] + t;
      assert r == Insert(x, s, le);
      forall y | y in t ensures le(s[0], y) {
        if y != x {
          var k :| 0 <= k < |s[1..]| && s[1..][k] == y;
          assert s[k + 1] == y;
        }
      }
      forall i, j | 0 <= i < j < |r| ensures le(r[i], r[j]) {
        assert r[j] == t[j - 1];
        if i > 0 {
          assert r[i] == t[i - 1];
        }
      }
    }
  }

  /** Inserting `x` adds it in front of its equals and leaves the others' order. */
  lemma {:induction false} InsertEqualsOf<T(!new)>(x: T, s: seq<T>, z: T, le: (T, T) -> bool)
    requires IsTotalPreorder(le)
    ensures EqualsOf(Insert(x, s, le), z, le)
         == if le(x, z) && le(z, x) then [x] + EqualsOf(s, z, le) else EqualsOf(s, z, le)
  {
    if s != [] && !le(x, s[0]) {
      InsertEqualsOf(x, s[1..], z, le);
      assert Insert(x, s, le) == [s[0]] + Insert(x, s[1..], le);
      if le(x, z) && le(z, x) {
        // s[0] is strictly above x, so it is not an equal of z
        assert !(le(s[0], z) && le(z, s[0]));
      }
    }
  }

  /** `sorted` returns an ordered permutation that keeps equal elements in input order. */
  lemma {:induction false} SortByCorrect<T(!new)>(s: seq<T>, le: (T, T) -> bool)
    requires IsTotalPreorder(le)
    ensures Sorted(SortBy(s, le), le)
    ensures multiset(SortBy(s, le)) == multiset(s)
    ensures Stable(SortBy(s, le), s, le)
  {
    if s != [] {
      SortByCorrect(s[1..], le);
      InsertSorted(s[0], SortBy(s[1..], le), le);
      forall z ensures EqualsOf(SortBy(s, le), z, le) == EqualsOf(s, z, le) {
        InsertEqualsOf(s[0], SortBy(s[1..], le), z, le);
      }
    }
  }
}
