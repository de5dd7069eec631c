/** Counting, and sizes of finite sets. */
module Sets {

  function Bit(b: bool): nat { if b then 1 else 0 }

  lemma {:induction false} SubsetSize<T>(a: set<T>, b: set<T>)
    requires a <= b
    ensures |a| <= |b|
    decreases |a|
  {
    if a != {} {
      var x :| x in a;
      SubsetSize(a - {x}, b - {x});
    }
  }

  lemma SmallerSet<T>(b: set<T>, a: set<T>, x: T)
    requires b <= a && x in a && x !in b
    ensures |b| < |a|
  {
    assert a == b + (a - b) && x in a - b;
    assert |a| == |b| + |a - b|;
  }

  lemma EqualSizes<T>(a: set<T>, b: set<T>, x: T)
    requires |a| == |b| && x in a && x !in b
    ensures exists y :: y in b && y !in a
  {
    if forall y :: y in b ==> y in a {
      SmallerSet(b, a, x);
    }
  }

  lemma Covers<T>(a: set<T>, b: set<T>)
    requires a <= b && |a| == |b|
    ensures a == b
  {
    if x :| x in b && x !in a {
      SmallerSet(a, b, x);
    }
  }
}
