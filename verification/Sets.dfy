/** Sizes of finite sets. */
module Sets {
  lemma {:induction false} SubsetSize<T>(a: set<T>, b: set<T>)
    requires a <= b
    ensures |a| <= |b|
  {
    if a != {} {
      var x :| x in a;
      SubsetSize(a - {x}, b - {x});
    }
  }

  lemma SameSize<T>(a: set<T>, b: set<T>)
    requires a <= b && |a| == |b|
    ensures a == b
  {
    assert b == a + (b - a);
    assert |b - a| == 0;
  }

  /** A subset one element short lacks exactly one element. */
  lemma OneShort<T>(a: set<T>, b: set<T>) returns (x: T)
    requires a <= b && |a| == |b| - 1
    ensures x !in a && b == a + {x}
  {
    assert b == a + (b - a);
    x :| x in b - a;
    SameSize(a + {x}, b);
  }
}
