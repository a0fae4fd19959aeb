/** Finite sets of indices, and how to count them. */
module NatSets {

  predicate Within(i: nat, lo: nat, hi: nat) {
    lo <= i < hi
  }

  ghost function Interval(lo: nat, hi: nat): set<nat> {
    set i: nat | i < hi && Within(i, lo, hi)
  }

  lemma {:induction false} IntervalSize(lo: nat, hi: nat)
    requires lo <= hi
    ensures |Interval(lo, hi)| == hi - lo
    decreases hi - lo
  {
    if lo < hi {
      IntervalSize(lo, hi - 1);
      assert Interval(lo, hi) == Interval(lo, hi - 1) + {hi - 1};
    } else {
      assert Interval(lo, hi) == {};
    }
  }

  lemma SubsetSize<T>(a: set<T>, b: set<T>)
    requires a <= b
    ensures |a| <= |b|
  {
    assert b == a + (b - a);
  }

  lemma {:induction false} Least(s: set<nat>) returns (m: nat)
    requires s != {}
    ensures m in s && forall x :: x in s ==> m <= x
    decreases |s|
  {
    m :| m in s;
    if s != {m} {
      var rest := Least(s - {m});
      assert forall x :: x in s ==> x == m || x in s - {m};
      m := if m < rest then m else rest;
    }
  }

  lemma {:induction false} Greatest(s: set<nat>) returns (m: nat)
    requires s != {}
    ensures m in s && forall x :: x in s ==> x <= m
    decreases |s|
  {
    m :| m in s;
    if s != {m} {
      var rest := Greatest(s - {m});
      assert forall x :: x in s ==> x == m || x in s - {m};
      m := if m < rest then rest else m;
    }
  }
}
