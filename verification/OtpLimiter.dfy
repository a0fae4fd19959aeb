/** The Redis-backed OTP limiter of server/rapidly/core/rate_limit.py. */
module OtpLimiter {
  import opened NatSets
  import opened Prelude

  const OTP_VERIFY_LIMIT := 10
  const OTP_VERIFY_WINDOW := 900.0

  /** A Redis counter that is gone from its deadline on. */
  datatype Counter = Counter(count: nat, deadline: real)

  /** `INCR` followed by `EXPIRE`, as one transaction. */
  function Incremented(counter: Option<Counter>, now: real): Counter {
    Counter(1 + if counter.Some? && now < counter.value.deadline then counter.value.count else 0,
            now + OTP_VERIFY_WINDOW)
  }

  /** What Redis makes of the transaction of one attempt. */
  datatype Redis = Healthy | NotExecuted | ReplyLost

  datatype Response = Allowed | TooManyRequests | Unavailable

  function Respond(count: nat, redis: Redis): Response {
    if redis != Healthy then Unavailable
    else if count > OTP_VERIFY_LIMIT then TooManyRequests
    else Allowed
  }

  function Lookup(counters: map<string, Counter>, bucket: string): Option<Counter> {
    if bucket in counters then Some(counters[bucket]) else None
  }

  class OtpLimiter {
    var counters: map<string, Counter>

    constructor ()
      ensures counters == map[]
    {
      counters := map[];
    }

    /** The bucket is the hashed client address under a prefix. */
    method Check(bucket: string, now: real, redis: Redis) returns (response: Response)
      modifies this
      ensures redis != Healthy <==> response == Unavailable
      ensures var next := Incremented(Lookup(old(counters), bucket), now);
              && response == Respond(next.count, redis)
              && counters == if redis == NotExecuted then old(counters) else old(counters)[bucket := next]
    {
      if redis == NotExecuted {
        return Unavailable;
      }
      var count := 0;
      if bucket in counters && now < counters[bucket].deadline {
        count := counters[bucket].count;
      }
      count := count + 1;
      counters := counters[bucket := Counter(count, now + OTP_VERIFY_WINDOW)];
      if redis == ReplyLost {
        return Unavailable;
      }
      if count > OTP_VERIFY_LIMIT {
        return TooManyRequests;
      }
      return Allowed;
    }
  }

  // ----- the attempts on one bucket -----------------------------------------------------

  datatype Attempt = Attempt(now: real, redis: Redis)

  predicate Counts(a: Attempt) {
    a.redis != NotExecuted
  }

  function After(attempts: seq<Attempt>): Option<Counter> {
    if attempts == [] then None
    else
      var a := attempts[|attempts| - 1];
      var before := After(attempts[..|attempts| - 1]);
      if Counts(a) then Some(Incremented(before, a.now)) else before
  }

  function ResponseAt(attempts: seq<Attempt>, i: nat): Response
    requires i < |attempts|
  {
    Respond(Incremented(After(attempts[..i]), attempts[i].now).count, attempts[i].redis)
  }

  ghost predicate Monotone(attempts: seq<Attempt>) {
    forall i, j :: 0 <= i <= j < |attempts| ==> attempts[i].now <= attempts[j].now
  }

  ghost function CountedIn(attempts: seq<Attempt>, from: nat, to: nat): set<nat>
    requires to <= |attempts|
  {
    set k: nat | k < to && from <= k && Counts(attempts[k])
  }

  /** Less than a window after a counted attempt, its counter is alive and has counted all since. */
  lemma {:induction false} CounterIsShared(attempts: seq<Attempt>, i: nat, n: nat)
    requires Monotone(attempts) && i < n <= |attempts| && Counts(attempts[i])
    requires attempts[n - 1].now < attempts[i].now + OTP_VERIFY_WINDOW
    ensures After(attempts[..n]).Some?
    ensures attempts[i].now + OTP_VERIFY_WINDOW <= After(attempts[..n]).value.deadline
    ensures |CountedIn(attempts, i, n)| <= After(attempts[..n]).value.count
    decreases n
  {
    assert attempts[..n][..n - 1] == attempts[..n - 1];
    CountedStep(attempts, i, n);
    if n == i + 1 {
      assert CountedIn(attempts, i, i) == {};
    } else {
      CounterIsShared(attempts, i, n - 1);
    }
  }

  predicate AllowedAt(attempts: seq<Attempt>, from: real, to: real, k: nat)
    requires k < |attempts|
  {
    from <= attempts[k].now <= to && ResponseAt(attempts, k) == Allowed
  }

  ghost function AllowedIn(attempts: seq<Attempt>, from: real, to: real): set<nat> {
    set k: nat | k < |attempts| && AllowedAt(attempts, from, to, k)
  }

  lemma CountedStep(attempts: seq<Attempt>, i: nat, n: nat)
    requires i < n <= |attempts|
    ensures |CountedIn(attempts, i, n)| == |CountedIn(attempts, i, n - 1)| + if Counts(attempts[n - 1]) then 1 else 0
  {
    var before := CountedIn(attempts, i, n - 1);
    assert CountedIn(attempts, i, n) == if Counts(attempts[n - 1]) then before + {n - 1} else before;
  }

  lemma AllowedAreCounted(attempts: seq<Attempt>, from: real, to: real, lo: nat, hi: nat)
    requires hi < |attempts| && forall k :: k in AllowedIn(attempts, from, to) ==> lo <= k <= hi
    ensures |AllowedIn(attempts, from, to)| <= |CountedIn(attempts, lo, hi + 1)|
  {
    SubsetSize(AllowedIn(attempts, from, to), CountedIn(attempts, lo, hi + 1));
  }

  lemma AllowedMeans(attempts: seq<Attempt>, k: nat)
    requires k < |attempts| && ResponseAt(attempts, k) == Allowed
    ensures Counts(attempts[k])
    ensures After(attempts[..k + 1]).Some? && After(attempts[..k + 1]).value.count <= OTP_VERIFY_LIMIT
  {
    assert attempts[..k + 1][..k] == attempts[..k];
  }

  /** At most ten attempts are allowed in any interval shorter than fifteen minutes. */
  lemma OtpBound(attempts: seq<Attempt>, from: real, to: real)
    requires Monotone(attempts) && to - from < OTP_VERIFY_WINDOW
    ensures |AllowedIn(attempts, from, to)| <= OTP_VERIFY_LIMIT
  {
    var all := AllowedIn(attempts, from, to);
    if all != {} {
      var lo := Least(all);
      var hi := Greatest(all);
      assert AllowedAt(attempts, from, to, lo) && AllowedAt(attempts, from, to, hi);
      AllowedMeans(attempts, lo);
      AllowedMeans(attempts, hi);
      CounterIsShared(attempts, lo, hi + 1);
      AllowedAreCounted(attempts, from, to, lo, hi);
    }
  }

  // ----- reopening ----------------------------------------------------------------------

  /** Two attempts counted one after the other, a full window apart. */
  ghost predicate QuietGap(attempts: seq<Attempt>, p: int, q: int) {
    && 0 <= p < q < |attempts| && Counts(attempts[p]) && Counts(attempts[q])
    && (forall k :: p < k < q ==> !Counts(attempts[k]))
    && attempts[q].now - attempts[p].now >= 900.0
  }

  /** The last counted attempt before position `n`. */
  function LastCounted(attempts: seq<Attempt>, n: nat): (p: int)
    requires n <= |attempts|
    ensures -1 <= p < n
    ensures 0 <= p ==> Counts(attempts[p])
    ensures forall k :: p < k < n ==> !Counts(attempts[k])
  {
    if n == 0 then -1 else if Counts(attempts[n - 1]) then n - 1 else LastCounted(attempts, n - 1)
  }

  lemma {:induction false} DeadlineIsLast(attempts: seq<Attempt>, n: nat)
    requires n <= |attempts|
    ensures After(attempts[..n]).Some? <==> 0 <= LastCounted(attempts, n)
    ensures After(attempts[..n]).Some? ==>
              After(attempts[..n]).value.deadline == attempts[LastCounted(attempts, n)].now + OTP_VERIFY_WINDOW
  {
    if n > 0 {
      DeadlineIsLast(attempts, n - 1);
      assert attempts[..n][..n - 1] == attempts[..n - 1];
    }
  }

  lemma {:induction false} StaysLocked(attempts: seq<Attempt>, i: nat, n: nat)
    requires i < n <= |attempts| && Counts(attempts[i])
    requires After(attempts[..i + 1]).Some? && OTP_VERIFY_LIMIT < After(attempts[..i + 1]).value.count
    requires forall p, q :: i <= p < q < n ==> !QuietGap(attempts, p, q)
    ensures After(attempts[..n]).Some? && OTP_VERIFY_LIMIT < After(attempts[..n]).value.count
    decreases n
  {
    if i + 1 < n {
      StaysLocked(attempts, i, n - 1);
      DeadlineIsLast(attempts, n - 1);
      assert attempts[..n][..n - 1] == attempts[..n - 1];
      if Counts(attempts[n - 1]) {
        assert !QuietGap(attempts, LastCounted(attempts, n - 1), n - 1);
      }
    }
  }

  /** A bucket that has been locked is open again only after a full window without attempts. */
  lemma ReopensAfterGap(attempts: seq<Attempt>, i: nat, j: nat)
    requires i < j < |attempts|
    requires ResponseAt(attempts, i) == TooManyRequests && ResponseAt(attempts, j) == Allowed
    ensures exists p, q :: i <= p < q <= j && QuietGap(attempts, p, q)
  {
    assert attempts[..i + 1][..i] == attempts[..i];
    assert attempts[..j + 1][..j] == attempts[..j];
    if forall p, q :: i <= p < q <= j ==> !QuietGap(attempts, p, q) {
      StaysLocked(attempts, i, j + 1);
    }
  }

  /** And it is open then: the attempt after such a gap is allowed if Redis answers. */
  lemma OpenAfterGap(attempts: seq<Attempt>, p: nat, q: nat)
    requires QuietGap(attempts, p, q) && attempts[q].redis == Healthy
    ensures ResponseAt(attempts, q) == Allowed
  {
    DeadlineIsLast(attempts, q);
    assert LastCounted(attempts, q) == p;
  }

  // ----- exactly which attempts are allowed ---------------------------------------------

  /** Attempt `k` was counted, and no quiet gap separates it from attempt `i`. */
  ghost predicate InStreak(attempts: seq<Attempt>, i: nat, k: nat)
    requires i < |attempts|
  {
    k <= i && Counts(attempts[k]) && forall p, q :: k <= p < q <= i ==> !QuietGap(attempts, p, q)
  }

  /** The attempts that share a counter with attempt `i`. */
  ghost function Streak(attempts: seq<Attempt>, i: nat): set<nat>
    requires i < |attempts|
  {
    set k: nat | k < |attempts| && InStreak(attempts, i, k)
  }

  /** Between the attempt counted before it and attempt `i` there is at most one gap to look at. */
  lemma SameStreak(attempts: seq<Attempt>, i: nat, k: nat)
    requires k < i < |attempts| && Counts(attempts[i]) && 0 <= LastCounted(attempts, i)
    ensures var p := LastCounted(attempts, i);
            InStreak(attempts, i, k) <==> InStreak(attempts, p, k) && attempts[i].now - attempts[p].now < 900.0
  {
    var p := LastCounted(attempts, i);
    if InStreak(attempts, p, k) && attempts[i].now - attempts[p].now < 900.0 {
      forall a, b | k <= a < b <= i ensures !QuietGap(attempts, a, b) {
        assert p < b && Counts(attempts[b]) ==> b == i;
      }
    }
    assert InStreak(attempts, i, k) ==> k <= p && !QuietGap(attempts, p, i);
  }

  /** A counted attempt goes on with the streak of the one counted before it, or starts a new one. */
  lemma StreakGrows(attempts: seq<Attempt>, i: nat)
    requires i < |attempts| && Counts(attempts[i])
    ensures var p := LastCounted(attempts, i);
            Streak(attempts, i) ==
            (if 0 <= p && attempts[i].now - attempts[p].now < 900.0 then Streak(attempts, p) else {}) + {i}
  {
    var p := LastCounted(attempts, i);
    forall k: nat | k < i ensures InStreak(attempts, i, k) <==>
                                  0 <= p && attempts[i].now - attempts[p].now < 900.0 && InStreak(attempts, p, k)
    {
      if 0 <= p {
        SameStreak(attempts, i, k);
      }
    }
    assert InStreak(attempts, i, i);
  }

  lemma {:induction false} CountIsStreak(attempts: seq<Attempt>, i: nat)
    requires i < |attempts| && Counts(attempts[i])
    ensures After(attempts[..i + 1]).Some? && After(attempts[..i + 1]).value.count == |Streak(attempts, i)|
  {
    var p := LastCounted(attempts, i);
    assert attempts[..i + 1][..i] == attempts[..i];
    StreakGrows(attempts, i);
    DeadlineIsLast(attempts, i);
    if 0 <= p {
      CountIsStreak(attempts, p);
      StaysUntilNext(attempts, p, i);
      assert i !in Streak(attempts, p);
    }
  }

  /** Attempts that are not counted leave the counter alone. */
  lemma {:induction false} StaysUntilNext(attempts: seq<Attempt>, p: nat, n: nat)
    requires p < n <= |attempts| && forall k :: p < k < n ==> !Counts(attempts[k])
    ensures After(attempts[..n]) == After(attempts[..p + 1])
  {
    if p + 1 < n {
      StaysUntilNext(attempts, p, n - 1);
      assert attempts[..n][..n - 1] == attempts[..n - 1];
    }
  }

  /**
   An attempt Redis answers is allowed exactly when it is one of the first ten of its streak, the
   attempts counted since the last 900 seconds without any.
   */
  lemma AllowedExactly(attempts: seq<Attempt>, i: nat)
    requires i < |attempts| && attempts[i].redis == Healthy
    ensures ResponseAt(attempts, i) == if |Streak(attempts, i)| <= 10 then Allowed else TooManyRequests
  {
    CountIsStreak(attempts, i);
    assert attempts[..i + 1][..i] == attempts[..i];
  }
}
