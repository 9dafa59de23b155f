/** How many different numbers fit in an interval. */
module Counting {
  lemma NothingInside(xs: set<nat>)
    requires forall x :: x !in xs
    ensures |xs| == 0
  {
    assert xs == {};
  }

  lemma {:induction false} IntervalHolds(xs: set<nat>, lo: nat, n: nat)
    requires forall x :: x in xs ==> lo <= x < lo + n
    ensures |xs| <= n
    decreases n
  {
    if n > 0 {
      var last := lo + n - 1;
      IntervalHolds(xs - {last}, lo, n - 1);
      assert xs <= (xs - {last}) + {last};
      SubsetSize(xs, (xs - {last}) + {last});
    } else {
      NothingInside(xs);
    }
  }

  lemma {:induction false} SubsetSize<T>(a: set<T>, b: set<T>)
    requires a <= b
    ensures |a| <= |b|
    decreases |a|
  {
    if a != {} {
      var x :| x in a;
      SubsetSize(a - {x}, b - {x});
    }
  }

  /** A set that maps one to one into another is no larger. */
  lemma {:induction false} InjectionSize(xs: set<nat>, ys: set<nat>, f: nat -> nat)
    requires forall x :: x in xs ==> f(x) in ys
    requires forall x, y :: x in xs && y in xs && x < y ==> f(x) != f(y)
    ensures |xs| <= |ys|
    decreases |xs|
  {
    if xs != {} {
      var x :| x in xs;
      InjectionSize(xs - {x}, ys - {f(x)}, f);
    }
  }
}
