/**
 * The three lodash array operations the account diff uses, on sequences compared
 * by value (lodash's SameValueZero is plain equality for strings).
 */
module Lodash {
  import opened Common

  /**
   * `difference(a, b)`: the elements of `a` that do not occur in `b`, in the order
   * of `a` and keeping repetitions from `a`.
   */
  function Difference<T(==,!new)>(a: seq<T>, b: seq<T>): (r: seq<T>)
    ensures forall x :: x in r <==> x in a && x !in b
    ensures forall x :: multiset(r)[x] == if x in b then 0 else multiset(a)[x]
    ensures |r| <= |a|
  {
    if a == [] then []
    else
      assert a == [a[0]] + a[1..];
      (if a[0] in b then [] else [a[0]]) + Difference(a[1..], b)
  }

  /** The elements of `a` that also occur in `b`, in the order of `a`, with repetitions. */
  function Retain<T(==,!new)>(a: seq<T>, b: seq<T>): (r: seq<T>)
    ensures forall x :: x in r <==> x in a && x in b
  {
    if a == [] then []
    else (if a[0] in b then [a[0]] else []) + Retain(a[1..], b)
  }

  /** The first occurrence of each element of `s`, in order (lodash `uniq`). */
  function Uniq<T(==,!new)>(s: seq<T>): (r: seq<T>)
    ensures NoDup(r)
    ensures forall x :: x in r <==> x in s
  {
    if s == [] then []
    else
      var d := Uniq(s[..|s| - 1]);
      assert forall x :: x in s <==> x in s[..|s| - 1] || x == s[|s| - 1] by {
        assert s == s[..|s| - 1] + [s[|s| - 1]];
      }
      if s[|s| - 1] in d then d else d + [s[|s| - 1]]
  }

  /** `intersection(a, b)`: the distinct values occurring in both, in the order of `a`. */
  function Intersection<T(==,!new)>(a: seq<T>, b: seq<T>): (r: seq<T>)
    ensures NoDup(r)
    ensures forall x :: x in r <==> x in a && x in b
  {
    Uniq(Retain(a, b))
  }

  /** `union(a, b)`: the distinct values occurring in either, first occurrences first. */
  function Union<T(==,!new)>(a: seq<T>, b: seq<T>): (r: seq<T>)
    ensures NoDup(r)
    ensures forall x :: x in r <==> x in a || x in b
  {
    Uniq(a + b)
  }
}
