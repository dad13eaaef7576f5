/** Sizes of finite sets. */
module Counting {

  /** A set of integers in an interval is no larger than the interval. */
  lemma {:induction false} Bounded(s: set<int>, lo: int, hi: int)
    requires forall x :: x in s ==> lo <= x < hi
    requires lo <= hi
    ensures |s| <= hi - lo
    decreases hi - lo
  {
    if lo == hi {
      assert forall x :: x !in s;
    } else {
      Bounded(s - {hi - 1}, lo, hi - 1);
      assert s <= (s - {hi - 1}) + {hi - 1};
    }
  }

  /** As many distinct numbers as the interval holds include every number of the interval. */
  lemma Pigeonhole(s: set<int>, lo: int, hi: int, v: int)
    requires forall x :: x in s ==> lo <= x < hi
    requires |s| == hi - lo && lo <= v < hi
    ensures v in s
  {
    if v !in s {
      Bounded(s + {v}, lo, hi);
    }
  }

  lemma {:induction false} SubsetSize<T>(s: set<T>, t: set<T>)
    requires s <= t
    ensures |s| <= |t|
  {
    if s != {} {
      var x :| x in s;
      SubsetSize(s - {x}, t - {x});
    }
  }

  ghost function Image<T, U>(s: set<T>, f: T -> U): set<U> {
    set x | x in s :: f(x)
  }

  /** Distinct elements have as many images under an injective function. */
  lemma {:induction false} ImageSize<T, U>(s: set<T>, f: T -> U)
    requires forall x, y | x in s && y in s && f(x) == f(y) :: x == y
    ensures |Image(s, f)| == |s|
  {
    if s == {} {
      assert Image(s, f) == {};
    } else {
      var x :| x in s;
      ImageSize(s - {x}, f);
      assert Image(s, f) == Image(s - {x}, f) + {f(x)};
    }
  }
}
