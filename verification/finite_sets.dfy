/** Choice, extremes and ascending enumeration over finite sets.

    The source reads group numbers into a Python `set` and takes `max` of it, and
    sorts candidate groups by number before scanning them. These functions give
    those two operations a deterministic, compiled meaning. */
module FiniteSets {

  /** `m` is the greatest element of `s`. */
  ghost predicate IsMax(s: set<int>, m: int) {
    m in s && forall x :: x in s ==> x <= m
  }

  /** `m` is the least element of `s`. */
  ghost predicate IsMin(s: set<int>, m: int) {
    m in s && forall x :: x in s ==> m <= x
  }

  /** Some element of a non-empty set. */
  ghost function Pick<T>(s: set<T>): (x: T)
    requires s != {}
    ensures x in s
  {
    assert exists x :: x in s by {
      if forall x :: x !in s {
        assert false;
      }
    }
    var x :| x in s; x
  }

  lemma {:induction false} MaxExists(s: set<int>)
    requires s != {}
    ensures exists m :: IsMax(s, m)
  {
    var x := Pick(s);
    if s - {x} == {} {
      assert forall y :: y in s ==> y in s - {x} || y == x;
      assert IsMax(s, x);
    } else {
      MaxExists(s - {x});
      var m :| IsMax(s - {x}, m);
      assert forall y :: y in s ==> y in s - {x} || y == x;
      if m < x {
        assert IsMax(s, x);
      } else {
        assert IsMax(s, m);
      }
    }
  }

  lemma {:induction false} MinExists(s: set<int>)
    requires s != {}
    ensures exists m :: IsMin(s, m)
  {
    var x := Pick(s);
    if s - {x} == {} {
      assert forall y :: y in s ==> y in s - {x} || y == x;
      assert IsMin(s, x);
    } else {
      MinExists(s - {x});
      var m :| IsMin(s - {x}, m);
      assert forall y :: y in s ==> y in s - {x} || y == x;
      if x < m {
        assert IsMin(s, x);
      } else {
        assert IsMin(s, m);
      }
    }
  }

  /** Python's `max(s)` on a non-empty set of integers. */
  function Max(s: set<int>): (m: int)
    requires s != {}
    ensures m in s
    ensures forall x :: x in s ==> x <= m
  {
    MaxExists(s);
    var m :| m in s && forall x :: x in s ==> x <= m; m
  }

  /** The least element of a non-empty set of integers. */
  function Min(s: set<int>): (m: int)
    requires s != {}
    ensures m in s
    ensures forall x :: x in s ==> m <= x
  {
    MinExists(s);
    var m :| m in s && forall x :: x in s ==> m <= x; m
  }

  /** `xs` is in strictly ascending order. */
  ghost predicate StrictlyAscending(xs: seq<int>) {
    forall i, j :: 0 <= i < j < |xs| ==> xs[i] < xs[j]
  }

  /** The elements of `s` in ascending order: what `sort(key=number)` yields. */
  function Ascending(s: set<int>): (xs: seq<int>)
    ensures StrictlyAscending(xs)
    ensures forall x :: x in s <==> x in xs
    ensures |xs| == |s|
    decreases |s|
  {
    if s == {} then []
    else
      var m := Min(s);
      var rest := Ascending(s - {m});
      assert forall x :: x in rest ==> m < x;
      [m] + rest
  }
}
