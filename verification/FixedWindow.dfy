/**
 Counting in windows that open with the first call after the previous window has run out: what
 the in-memory limiter of server/rapidly/core/rate_limit.py does for one key.
 */
module FixedWindow {
  import opened NatSets

  ghost predicate Increasing(times: seq<real>) {
    forall i, j :: 0 <= i <= j < |times| ==> times[i] <= times[j]
  }

  /** The call that opened the window call `i` falls into. */
  function Opener(times: seq<real>, window: real, i: nat): (s: nat)
    requires i < |times|
    ensures s <= i
  {
    if i == 0 then 0
    else
      var s := Opener(times, window, i - 1);
      if times[i] - times[s] >= window then i else s
  }

  /** The position of call `i` within its window, from 1. */
  function Rank(times: seq<real>, window: real, i: nat): (r: nat)
    requires i < |times|
    ensures 1 <= r
  {
    i - Opener(times, window, i) + 1
  }

  lemma {:induction false} OpenerMonotone(times: seq<real>, window: real, i: nat, j: nat)
    requires i <= j < |times|
    ensures Opener(times, window, i) <= Opener(times, window, j)
    ensures Opener(times, window, j) <= i ==> Opener(times, window, j) == Opener(times, window, i)
    decreases j - i
  {
    if i < j {
      OpenerMonotone(times, window, i, j - 1);
    }
  }

  /** All calls of a window come less than the window length after its opener. */
  lemma {:induction false} WithinWindow(times: seq<real>, window: real, i: nat)
    requires 0.0 < window && i < |times|
    ensures times[i] - times[Opener(times, window, i)] < window
    ensures Opener(times, window, Opener(times, window, i)) == Opener(times, window, i)
  {
    if i > 0 {
      WithinWindow(times, window, i - 1);
    }
  }

  /** A later window opens at least one window length after an earlier one. */
  lemma {:induction false} WindowsApart(times: seq<real>, window: real, i: nat, j: nat)
    requires Increasing(times) && i <= j < |times|
    requires Opener(times, window, i) < Opener(times, window, j)
    ensures times[Opener(times, window, j)] - times[Opener(times, window, i)] >= window
    decreases j - i
  {
    var s := Opener(times, window, j - 1);
    OpenerMonotone(times, window, i, j - 1);
    if Opener(times, window, j) == s {
      WindowsApart(times, window, i, j - 1);
    } else {
      OpenerMonotone(times, window, s, j - 1);
      assert times[Opener(times, window, i)] <= times[s];
    }
  }

  /** An interval one window long meets at most two windows. */
  lemma TwoWindows(times: seq<real>, window: real, i: nat, m: nat, j: nat, from: real)
    requires Increasing(times) && 0.0 < window && i <= m <= j < |times|
    requires from <= times[i] && times[j] < from + window
    ensures Opener(times, window, m) == Opener(times, window, i) || Opener(times, window, m) == Opener(times, window, j)
  {
    OpenerMonotone(times, window, i, m);
    OpenerMonotone(times, window, m, j);
    var a, b, c := Opener(times, window, i), Opener(times, window, m), Opener(times, window, j);
    if a < b < c {
      WindowsApart(times, window, m, j);
    }
  }

  predicate Admitted(times: seq<real>, window: real, limit: nat, i: nat)
    requires i < |times|
  {
    Rank(times, window, i) <= limit
  }

  /** The calls admitted by the window that call `s` opens. */
  ghost function AdmittedOf(times: seq<real>, window: real, limit: nat, s: nat): set<nat> {
    set i: nat | i < |times| && Opener(times, window, i) == s && Admitted(times, window, limit, i)
  }

  /** `s` opens a window that holds the calls from `s` up to `end`. */
  ghost predicate WindowSpans(times: seq<real>, window: real, s: nat, end: nat) {
    && s < end <= |times|
    && Opener(times, window, s) == s && Opener(times, window, end - 1) == s
    && (end < |times| ==> Opener(times, window, end) != s)
  }

  /** Every window admits exactly the smaller of its calls and the limit. */
  lemma WindowAdmits(times: seq<real>, window: real, limit: nat, s: nat, end: nat)
    requires WindowSpans(times, window, s, end)
    ensures |AdmittedOf(times, window, limit, s)| == if end - s < limit then end - s else limit
  {
    var hi := if end - s < limit then end else s + limit;
    forall i: nat | i < |times|
      ensures Opener(times, window, i) == s && Admitted(times, window, limit, i) <==> Within(i, s, hi)
    {
      if s <= i < end {
        OpenerMonotone(times, window, s, i);
        OpenerMonotone(times, window, i, end - 1);
      } else if end <= i {
        OpenerMonotone(times, window, end - 1, end);
        OpenerMonotone(times, window, end, i);
      }
    }
    assert AdmittedOf(times, window, limit, s) == Interval(s, hi);
    IntervalSize(s, hi);
  }

  ghost function AdmittedIn(times: seq<real>, window: real, limit: nat, from: real): set<nat> {
    set i: nat | i < |times| && from <= times[i] < from + window && Admitted(times, window, limit, i)
  }

  /** Any half-open interval one window long sees at most twice the limit admitted. */
  lemma IntervalAdmits(times: seq<real>, window: real, limit: nat, from: real)
    requires Increasing(times) && 0.0 < window
    ensures |AdmittedIn(times, window, limit, from)| <= 2 * limit
  {
    var all := AdmittedIn(times, window, limit, from);
    if all != {} {
      var lo := Least(all);
      var hi := Greatest(all);
      var a, b := Opener(times, window, lo), Opener(times, window, hi);
      forall i | i in all ensures i in Interval(a, a + limit) + Interval(b, b + limit) {
        TwoWindows(times, window, lo, i, hi, from);
        assert Within(i, Opener(times, window, i), Opener(times, window, i) + limit);
      }
      assert all <= Interval(a, a + limit) + Interval(b, b + limit);
      SubsetSize(all, Interval(a, a + limit) + Interval(b, b + limit));
      IntervalSize(a, a + limit);
      IntervalSize(b, b + limit);
    }
  }
}
