/** Sizes of finite sets. */
module FiniteSets {
  lemma {:induction false} SubsetOfSize<T>(s: set<T>, size: nat) returns (sub: set<T>)
    requires size <= |s|
    ensures sub <= s && |sub| == size
  {
    if size == |s| {
      sub := s;
    } else {
      var x :| x in s;
      sub := SubsetOfSize(s - {x}, size);
    }
  }

  lemma SubsetSize<T>(a: set<T>, b: set<T>)
    requires a <= b
    ensures |a| <= |b|
  {
    assert b == a + (b - a);
  }

  lemma Singleton<T>(s: set<T>, x: T)
    requires x in s && |s| == 1
    ensures s == {x}
  {
    assert |s - {x}| == 0;
    assert s == {x} + (s - {x});
  }

  method Pick<T(==)>(s: set<T>) returns (x: T)
    requires s != {}
    ensures x in s
  {
    x :| x in s;
  }
}
