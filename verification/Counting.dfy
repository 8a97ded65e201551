/** Cardinality facts behind the capacity and packing arguments. */
module Counting {

  lemma {:induction false} SubsetSize<T>(a: set<T>, b: set<T>)
    requires a <= b
    ensures |a| <= |b|
  {
    if a != {} {
      var x :| x in a;
      SubsetSize(a - {x}, b - {x});
    }
  }

  lemma AddSize<T>(s: set<T>, x: T)
    ensures |s + {x}| == |s| + if x in s then 0 else 1
  {
    if x in s { assert s + {x} == s; }
  }

  ghost predicate Distinct<T(!new)>(s: seq<T>) { forall i, j | 0 <= i < j < |s| :: s[i] != s[j] }

  ghost function Elements<T(!new)>(s: seq<T>): set<T> { set x | x in s }

  lemma {:induction false} DistinctSize<T(!new)>(s: seq<T>)
    requires Distinct(s)
    ensures |Elements(s)| == |s|
  {
    if s != [] {
      var front, x := s[..|s| - 1], s[|s| - 1];
      DistinctSize(front);
      assert Elements(s) == Elements(front) + {x} by { assert s == front + [x]; }
      assert x !in Elements(front) by { assert forall i | 0 <= i < |front| :: front[i] == s[i]; }
    } else {
      assert Elements(s) == {};
    }
  }

  ghost function Interval(lo: int, hi: int): (s: set<int>)
    requires lo <= hi
    ensures |s| == hi - lo
    ensures forall i :: i in s <==> lo <= i < hi
    decreases hi - lo
  {
    if lo == hi then {} else Interval(lo, hi - 1) + {hi - 1}
  }

  /** Distinct numbers below a bound are no more than the bound. */
  lemma DistinctBounded(s: seq<int>, bound: nat)
    requires Distinct(s) && forall i | 0 <= i < |s| :: 0 <= s[i] < bound
    ensures |s| <= bound
  {
    DistinctSize(s);
    assert Elements(s) <= Interval(0, bound);
    SubsetSize(Elements(s), Interval(0, bound));
  }
}
