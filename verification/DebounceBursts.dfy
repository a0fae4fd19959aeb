/** Well-formed hashes, and the coalescing of a burst of dispatches. */
module DebounceBursts {
  import opened Prelude
  import opened DebounceProtocol
  import opened DebounceHistory
  import opened DebounceRuns

  // ----- well-formed hashes -------------------------------------------------------------

  /** The reads of a pick-up miss exactly after an expiry followed by a bump and nothing else. */
  lemma FaultExactly(es: seq<Step>, j: nat)
    requires Behaviour(es) && j < |es| && es[j].PickUp?
    ensures var past := es[..j];
            es[j].verdict == Fault <==>
            && Last(past, AnExpiry) < Last(past, ABump)
            && Last(past, ADispatch) <= Last(past, AnExpiry)
            && Last(past, AMark) <= Last(past, AnExpiry)
  {
    VerdictIsHistory(es, j);
  }

  /** The key never expires under an execution that saw a hash. */
  ghost predicate NoExpiryMidExecution(es: seq<Step>) {
    forall i, run :: 0 <= i < |es| && es[i].Expire? && run in After(es[..i]).running ==>
                       After(es[..i]).running[run].timestamp.None?
  }

  ghost predicate Owned(s: State) {
    && (s.key.hash != NO_HASH ==> s.key.hash.owner.Some?)
    && (forall run :: run in s.running && s.running[run].timestamp.Some? ==> s.key.hash.owner.Some?)
  }

  lemma {:induction false} AlwaysOwned(es: seq<Step>)
    requires Behaviour(es) && NoExpiryMidExecution(es)
    ensures Owned(After(es))
  {
    if es != [] {
      var n := |es| - 1;
      var past := es[..n];
      assert NoExpiryMidExecution(past) by {
        forall i, run | 0 <= i < n && past[i].Expire? && run in After(past[..i]).running
          ensures After(past[..i]).running[run].timestamp.None?
        {
          assert past[..i] == es[..i] && past[i] == es[i];
        }
      }
      AlwaysOwned(past);
    }
  }

  /**
   In every state of every such history a hash that exists names its owner; while it is not
   executed its timestamp is there, not in the future, and is the anchor's: that of the last
   bump or of the first dispatch since the last mark or expiry.  No pick-up misses a read.
   */
  lemma HashWellFormed(es: seq<Step>)
    requires Behaviour(es) && NoExpiryMidExecution(es)
    ensures var hash := After(es).key.hash;
            && (hash != NO_HASH ==> hash.owner.Some? && hash.executed.Some?)
            && (hash.executed == Some(0) ==>
                  && hash.timestamp.Some?
                  && Anchor(es) < |es|
                  && hash.timestamp.value == Seconds(es[Anchor(es)].at) <= Seconds(After(es).now))
    ensures forall id, threshold, now :: Judge(After(es).key.hash, id, threshold, now) != Fault
  {
    AlwaysOwned(es);
    OwnedIsComplete(es);
    NoFault(After(es).key.hash);
  }

  /** A hash with an owner was dispatched since the last expiry, so it has the other fields. */
  lemma OwnedIsComplete(es: seq<Step>)
    requires Behaviour(es)
    ensures var hash := After(es).key.hash;
            && (hash.owner.Some? ==> hash.executed.Some?)
            && (hash.owner.Some? && hash.executed == Some(0) ==>
                  && hash.timestamp.Some?
                  && Anchor(es) < |es|
                  && hash.timestamp.value == Seconds(es[Anchor(es)].at) <= Seconds(After(es).now))
  {
    KeyIsHistory(es);
    if Anchor(es) < |es| {
      AnchorInPast(es);
    }
  }

  lemma NoFault(hash: Hash)
    requires hash != NO_HASH ==> hash.owner.Some? && hash.executed.Some?
    requires hash.executed == Some(0) ==> hash.timestamp.Some?
    ensures forall id, threshold, now :: Judge(hash, id, threshold, now) != Fault
  {
  }

  lemma AnchorInPast(es: seq<Step>)
    requires Behaviour(es) && Anchor(es) < |es|
    ensures Seconds(es[Anchor(es)].at) <= Seconds(After(es).now)
  {
    ClockMonotone(es, Anchor(es), |es| - 1);
  }

  // ----- fresh message ids --------------------------------------------------------------

  ghost predicate Sent(es: seq<Step>, id: MessageId) {
    exists i :: 0 <= i < |es| && es[i].Dispatch? && es[i].id == id
  }

  /** No two dispatches share a message id, and a message is delivered only once dispatched. */
  ghost predicate FreshIds(es: seq<Step>) {
    && (forall i, j :: 0 <= i < j < |es| && es[i].Dispatch? && es[j].Dispatch? ==> es[i].id != es[j].id)
    && (forall k :: 0 <= k < |es| && es[k].PickUp? ==> Sent(es[..k], es[k].id))
  }

  lemma FreshIdsAt(es: seq<Step>, n: nat)
    requires FreshIds(es) && n <= |es|
    ensures FreshIds(es[..n])
  {
    var past := es[..n];
    forall k | 0 <= k < n && past[k].PickUp?
      ensures Sent(past[..k], past[k].id)
    {
      assert past[..k] == es[..k] && past[k] == es[k];
    }
  }

  lemma SentLonger(es: seq<Step>, n: nat, id: MessageId)
    requires n <= |es| && Sent(es[..n], id)
    ensures exists i :: 0 <= i < n && es[i].Dispatch? && es[i].id == id
    ensures Sent(es, id)
  {
    var i :| 0 <= i < n && es[..n][i].Dispatch? && es[..n][i].id == id;
    assert es[i].id == id;
  }

  lemma {:induction false} CarriersWereSent(es: seq<Step>, id: MessageId)
    requires Behaviour(es) && FreshIds(es) && id in After(es).carriers
    ensures Sent(es, id)
  {
    var n := |es| - 1;
    FreshIdsAt(es, n);
    if id in After(es[..n]).carriers {
      CarriersWereSent(es[..n], id);
    }
    SentLonger(es, n, id);
  }

  /** A message that runs past the threshold is not the latest dispatch. */
  lemma PastThresholdIsOvertaken(es: seq<Step>, k: nat)
    requires Behaviour(es) && k < |es| && es[k].PickUp? && es[k].verdict.RunPastThreshold?
    ensures 0 <= Last(es[..k], ADispatch) && es[Last(es[..k], ADispatch)].id != es[k].id
  {
    VerdictIsHistory(es, k);
  }

  /** A message that once ran past the threshold was overtaken by a later dispatch. */
  lemma {:induction false} CarriersAreOvertaken(es: seq<Step>)
    requires Behaviour(es) && FreshIds(es) && 0 <= Last(es, ADispatch)
    ensures es[Last(es, ADispatch)].id !in After(es).carriers
  {
    var n := |es| - 1;
    var past, e := es[..n], es[n];
    FreshIdsAt(es, n);
    if e.Dispatch? {
      if e.id in After(past).carriers {
        CarriersWereSent(past, e.id);
        SentLonger(es, n, e.id);
        assert false;
      }
    } else {
      CarriersAreOvertaken(past);
      if e.PickUp? && e.verdict.RunPastThreshold? {
        PastThresholdIsOvertaken(es, n);
      } else if e.PickUp? && e.flag {
        assert e.id in After(past).carriers;
      }
    }
  }

  /**
   With fresh ids the option a retry may bring back never matters: a finish bumps exactly when
   its own pick-up found the message past the threshold, and the owner's clean finish marks.
   */
  lemma FlagNeverMatters(es: seq<Step>, k: nat) returns (b: nat)
    requires Behaviour(es) && FreshIds(es) && k < |es| && es[k].Finish?
    ensures b < k && Begins(es, b) && es[b].run == es[k].run && OpenUntil(es, b, k)
    ensures es[k].effect == Bump <==> es[b].verdict.RunPastThreshold?
    ensures es[k].effect == Mark <==> es[b].verdict.RunOwner? && !es[k].failed
  {
    var past := es[..k];
    BehaviourAt(es, k);
    b := ExecutionBegan(past, es[k].run);
    assert past[b] == es[b];
    assert OpenUntil(es, b, k) by {
      assert forall j :: b < j < k ==> past[j] == es[j];
    }
    if es[b].verdict.RunOwner? {
      BehaviourAt(es, b);
      FreshIdsAt(es, b);
      OwnerIsLatestDispatch(es, b);
      CarriersAreOvertaken(es[..b]);
    }
  }

  // ----- the life of a key --------------------------------------------------------------

  lemma {:induction false} LastMonotone(es: seq<Step>, n: nat, kind: Kind)
    requires n <= |es|
    ensures Last(es[..n], kind) <= Last(es, kind)
    ensures Last(es, kind) < n ==> Last(es, kind) == Last(es[..n], kind)
    decreases |es|
  {
    if n == |es| {
      assert es[..n] == es;
    } else {
      LastMonotone(es[..|es| - 1], n, kind);
      assert es[..|es| - 1][..n] == es[..n];
    }
  }

  /** A dispatch or a bump: what sets the deadline of the key. */
  predicate Renews(e: Step) {
    e.Dispatch? || Is(e, ABump)
  }

  /** A key expires no earlier than its full life after every dispatch and every bump before. */
  lemma ExpiryIsLate(es: seq<Step>, x: nat, t: nat)
    requires Behaviour(es) && t < x < |es| && es[x].Expire? && Renews(es[t])
    ensures es[t].at + KEY_TTL_MS <= es[x].at
  {
    var past := es[..x];
    BehaviourAt(es, x);
    KeyIsHistory(past);
    NoneAfterLast(past, ADispatch);
    NoneAfterLast(past, ABump);
    assert past[t] == es[t];
    ClockMonotone(es, t, Max(Last(past, ADispatch), Last(past, ABump)));
  }

  /** Only a key renewed since it last expired can expire. */
  lemma ExpiryNeedsRenewal(es: seq<Step>, x: nat)
    requires Behaviour(es) && x < |es| && es[x].Expire?
    ensures Last(es[..x], AnExpiry) < Max(Last(es[..x], ADispatch), Last(es[..x], ABump))
  {
    BehaviourAt(es, x);
    KeyIsHistory(es[..x]);
  }

  // ----- bursts -------------------------------------------------------------------------

  /**
   A dispatch that starts a burst: the key is not waiting, and no execution in flight has seen
   it waiting.
   */
  ghost predicate Starts(es: seq<Step>, f: int) {
    && 0 <= f < |es| && es[f].Dispatch?
    && After(es[..f]).key.hash.timestamp.None?
    && NoneHolds(After(es[..f]))
  }

  ghost predicate NoneHolds(s: State) {
    forall run :: run in s.running ==> s.running[run].timestamp.None?
  }

  /**
   A burst from `f` to the end of the history: message ids are fresh, each dispatch comes less
   than `delay` after the one before, and every pick-up is in time.  Nothing is said of what
   came before `f`; messages of that time may still be delivered.
   */
  ghost predicate Burst(es: seq<Step>, f: int, delay: int) {
    && Behaviour(es) && FreshIds(es) && Starts(es, f)
    && (forall i, j :: f <= i < j < |es| && es[i].Dispatch? && es[j].Dispatch? ==> Spaced(es, delay, i, j))
    && (forall k :: f < k < |es| && es[k].PickUp? ==> InTime(es, f, delay, k))
  }

  /** Neighbouring dispatches come within the delay. */
  predicate Spaced(es: seq<Step>, delay: int, i: int, j: int)
    requires 0 <= i < j < |es|
  {
    NoDispatchBetween(es, i, j) ==> es[j].at < es[i].at + delay
  }

  /**
   The pick-up comes no earlier than its message is due, if that is of the burst, and no later
   than the threshold after the first dispatch, a threshold shorter than the life of the key.
   */
  ghost predicate InTime(es: seq<Step>, f: int, delay: int, k: int)
    requires 0 <= f < |es| && 0 <= k < |es| && es[k].PickUp?
  {
    && (forall i :: f <= i < k && es[i].Dispatch? && es[i].id == es[k].id ==> DueAt(es, delay, i, k))
    && Seconds(es[k].at) <= Seconds(es[f].at) + es[k].threshold
    && es[k].threshold * 1000 < KEY_TTL_MS
  }

  predicate DueAt(es: seq<Step>, delay: int, i: int, k: int)
    requires 0 <= i < k < |es|
  {
    es[i].at + delay <= es[k].at
  }

  /** A key is not waiting exactly when nothing was dispatched or bumped since it was last reset. */
  lemma NotWaitingExactly(es: seq<Step>)
    requires Behaviour(es)
    ensures After(es).key.hash.timestamp.None? <==> Max(Last(es, ADispatch), Last(es, ABump)) <= LastReset(es)
  {
    KeyIsHistory(es);
  }

  lemma SecondsApart(a: int, b: int, seconds: int)
    requires Seconds(a) <= Seconds(b) + seconds && seconds * 1000 < KEY_TTL_MS
    ensures a < b + KEY_TTL_MS
  {
  }

  /** While the burst is being picked up the key does not expire. */
  lemma NoExpiryInBurst(es: seq<Step>, f: int, delay: int, k: nat)
    requires Burst(es, f, delay) && f < k < |es| && es[k].PickUp?
    ensures Last(es[..k], AnExpiry) < f
  {
    var x := Last(es[..k], AnExpiry);
    if f <= x {
      assert InTime(es, f, delay, k);
      assert es[..k][x] == es[x];
      ExpiryIsLate(es, x, f);
      ClockMonotone(es, x, k);
      SecondsApart(es[k].at, es[f].at, es[k].threshold);
    }
  }

  /** In a burst waiting counts from its first dispatch or later. */
  lemma AnchorInBurst(es: seq<Step>, f: int, k: nat)
    requires Behaviour(es) && Starts(es, f) && f < k <= |es| && Anchor(es[..k]) < k
    ensures f <= Anchor(es[..k]) && es[f].at <= es[Anchor(es[..k])].at
  {
    var a, early := Anchor(es[..k]), es[..f];
    assert es[..k][..f] == early && es[..k][a] == es[a];
    assert a < f ==> early[a] == es[a];
    if a < f {
      BehaviourAt(es, f);
      NotWaitingExactly(early);
      LastMonotone(es[..k], f, AnExpiry);
      LastMonotone(es[..k], f, AMark);
      NoneAfterLast(early, ADispatch);
      NoneAfterLast(early, ABump);
      assert false;
    }
    ClockMonotone(es, f, a);
  }

  lemma LastDispatchInBurst(es: seq<Step>, f: int, k: nat)
    requires Starts(es, f) && f < k <= |es|
    ensures f <= Last(es[..k], ADispatch) < k && es[Last(es[..k], ADispatch)].Dispatch?
  {
    NoneAfterLast(es[..k], ADispatch);
    assert es[..k][f] == es[f];
    assert es[..k][Last(es[..k], ADispatch)] == es[Last(es[..k], ADispatch)];
  }

  /** A pick-up of the burst runs if it is of the latest message, else is skipped; after a mark all are. */
  lemma BurstVerdict(es: seq<Step>, f: int, delay: int, k: nat)
    requires Burst(es, f, delay) && f < k < |es| && es[k].PickUp?
    ensures var d, m := Last(es[..k], ADispatch), Last(es[..k], AMark);
            && f <= d
            && match es[k].verdict
               case SkipExecuted => d < m
               case RunOwner(_) => m < d && es[k].id == es[d].id
               case SkipNotOwner(_) => m < d && es[k].id != es[d].id
               case _ => false
  {
    var past := es[..k];
    VerdictIsHistory(es, k);
    LastDispatchInBurst(es, f, k);
    NoExpiryInBurst(es, f, delay, k);
    assert InTime(es, f, delay, k);
    if Anchor(past) < k {
      AnchorInBurst(es, f, k);
    }
  }

  // ----- the last message ---------------------------------------------------------------

  lemma {:induction false} NextDispatch(es: seq<Step>, i: nat, l: nat) returns (n: nat)
    requires i < l < |es| && es[l].Dispatch?
    ensures i < n <= l && es[n].Dispatch? && NoDispatchBetween(es, i, n)
    decreases l - i
  {
    if es[i + 1].Dispatch? {
      n := i + 1;
    } else {
      n := NextDispatch(es, i + 1, l);
    }
  }

  /** When a message of the burst is due and nothing has followed it, nothing will. */
  lemma NothingFollows(es: seq<Step>, f: int, delay: int, k: nat)
    requires Burst(es, f, delay) && f < k < |es| && es[k].PickUp?
    requires 0 <= Last(es[..k], ADispatch) && DueAt(es, delay, Last(es[..k], ADispatch), k)
    ensures Last(es, ADispatch) == Last(es[..k], ADispatch)
  {
    var d, l := Last(es[..k], ADispatch), Last(es, ADispatch);
    LastMonotone(es, k, ADispatch);
    LastDispatchInBurst(es, f, k);
    NoneAfterLast(es[..k], ADispatch);
    assert forall n :: 0 <= n < k ==> es[..k][n] == es[n];
    if k <= l {
      var n := NextDispatch(es, d, l);
      assert Spaced(es, delay, d, n);
      ClockMonotone(es, k, n);
    }
  }

  /** A message that owns the key when picked up is the last one of the whole burst. */
  lemma OwnerIsLastOfBurst(es: seq<Step>, f: int, delay: int, k: nat)
    requires Burst(es, f, delay) && f < k < |es| && es[k].PickUp?
    requires 0 <= Last(es[..k], ADispatch) && es[Last(es[..k], ADispatch)].id == es[k].id
    ensures Last(es, ADispatch) == Last(es[..k], ADispatch)
  {
    LastDispatchInBurst(es, f, k);
    assert InTime(es, f, delay, k) && DueAt(es, delay, Last(es[..k], ADispatch), k);
    NothingFollows(es, f, delay, k);
  }

  /** When the last message of the burst is picked up, nothing was dispatched after it. */
  lemma LastMessageOwns(es: seq<Step>, f: int, delay: int, k: nat)
    requires Burst(es, f, delay) && f < k < |es| && es[k].PickUp?
    requires 0 <= Last(es, ADispatch) && es[k].id == es[Last(es, ADispatch)].id
    ensures Last(es[..k], ADispatch) == Last(es, ADispatch)
  {
    SentLonger(es, k, es[k].id);
    var i :| 0 <= i < k && es[i].Dispatch? && es[i].id == es[k].id;
    var l := Last(es, ADispatch);
    assert i == l;
    LastMonotone(es, k, ADispatch);
  }

  // ----- executions of the burst --------------------------------------------------------

  /** An execution that began after `f` finishes at `x` without exception. */
  ghost predicate CleanFinish(es: seq<Step>, f: int, x: int) {
    && 0 <= f < x < |es| && es[x].Finish? && !es[x].failed
    && exists b :: f < b < x && Begins(es, b) && es[b].run == es[x].run && OpenUntil(es, b, x)
  }

  /** A clean finish of the burst marks the key, after its last dispatch. */
  lemma CleanFinishMarks(es: seq<Step>, f: int, delay: int, x: nat)
    requires Burst(es, f, delay) && CleanFinish(es, f, x)
    ensures es[x].effect == Mark && Last(es, ADispatch) < x
  {
    var c :| f < c < x && Begins(es, c) && es[c].run == es[x].run && OpenUntil(es, c, x);
    var b := FlagNeverMatters(es, x);
    OneExecution(es, b, c, x);
    BurstVerdict(es, f, delay, b);
    LastDispatchInBurst(es, f, b);
    OwnerIsLastOfBurst(es, f, delay, b);
  }

  /** Two pick-ups of one run are not both open at its finish. */
  lemma OneExecution(es: seq<Step>, b: nat, c: nat, x: nat)
    requires Behaviour(es) && b < x < |es| && c < x && Begins(es, b) && Begins(es, c)
    requires es[b].run == es[c].run && OpenUntil(es, b, x) && OpenUntil(es, c, x)
    ensures b == c
  {
    if b < c {
      ExecutionInFlight(es, b, c);
      BehaviourAt(es, c);
    } else if c < b {
      ExecutionInFlight(es, c, b);
      BehaviourAt(es, b);
    }
  }

  /** A mark after the start of the burst is a clean finish of it. */
  lemma MarkIsCleanFinish(es: seq<Step>, f: int, m: nat)
    requires Behaviour(es) && Starts(es, f) && f < m < |es| && Is(es[m], AMark)
    ensures CleanFinish(es, f, m)
  {
    var b := MarkHasExecution(es, m);
    if b < f {
      ExecutionInFlight(es, b, f);
    }
  }

  /**
   Coalescing.  Of a burst only the last message ever executes, and no message of before it does;
   the last message does execute whenever it is picked up before a clean finish; and after one
   clean finish every later pick-up is skipped.
   */
  lemma BurstRunsOnlyLast(es: seq<Step>, f: int, delay: int, k: nat)
    requires Burst(es, f, delay) && f < k < |es| && es[k].PickUp?
    ensures f <= Last(es, ADispatch)
    ensures var last := es[Last(es, ADispatch)].id;
            && (!es[k].verdict.Skips() ==> es[k].verdict.RunOwner? && es[k].id == last)
            && ((exists x :: x < k && CleanFinish(es, f, x)) ==> es[k].verdict == SkipExecuted)
            && (es[k].id == last && (forall x :: x < k ==> !CleanFinish(es, f, x)) ==> es[k].verdict.RunOwner?)
  {
    BurstVerdict(es, f, delay, k);
    LastDispatchInBurst(es, f, k);
    LastMonotone(es, k, ADispatch);
    if es[Last(es[..k], ADispatch)].id == es[k].id {
      OwnerIsLastOfBurst(es, f, delay, k);
    }
    if es[k].id == es[Last(es, ADispatch)].id {
      LastMessageOwns(es, f, delay, k);
    }
    if es[k].verdict == SkipExecuted {
      var m := Last(es[..k], AMark);
      assert es[..k][m] == es[m];
      MarkIsCleanFinish(es, f, m);
    }
    if x :| x < k && CleanFinish(es, f, x) {
      CleanFinishMarks(es, f, delay, x);
      NoneAfterLast(es[..k], AMark);
      assert es[..k][x] == es[x];
    }
  }

  // ----- the first burst of a key -------------------------------------------------------

  /** The first dispatch ever, the key's first. */
  ghost predicate FirstDispatch(es: seq<Step>, f: int) {
    0 <= f < |es| && es[f].Dispatch? && NoDispatchBetween(es, -1, f)
  }

  lemma {:induction false} NothingBeforeDispatch(es: seq<Step>)
    requires Behaviour(es) && NoDispatchBetween(es, -1, |es|)
    ensures After(es).key == NO_KEY && NoneHolds(After(es))
  {
    if es != [] {
      var past := es[..|es| - 1];
      assert forall i :: 0 <= i < |past| ==> past[i] == es[i];
      NothingBeforeDispatch(past);
    }
  }

  /** The first dispatch of a key starts a burst. */
  lemma FirstDispatchStarts(es: seq<Step>, f: int)
    requires Behaviour(es) && FirstDispatch(es, f)
    ensures Starts(es, f)
  {
    BehaviourAt(es, f);
    assert forall i :: 0 <= i < f ==> es[..f][i] == es[i];
    NothingBeforeDispatch(es[..f]);
  }

  /** In the first burst of a key, with fresh ids, every pick-up and every finish is of the burst. */
  lemma FirstBurstIsAll(es: seq<Step>, f: int, k: nat)
    requires Behaviour(es) && FreshIds(es) && FirstDispatch(es, f) && k < |es|
    ensures es[k].PickUp? ==> f < k
    ensures es[k].Finish? && !es[k].failed ==> CleanFinish(es, f, k)
  {
    if es[k].PickUp? {
      SentLonger(es, k, es[k].id);
    }
    if es[k].Finish? {
      var b := FlagNeverMatters(es, k);
      SentLonger(es, b, es[b].id);
    }
  }

  /** Coalescing of the first burst: every pick-up of the history, and every clean finish. */
  lemma FirstBurstRunsOnlyLast(es: seq<Step>, f: int, delay: int, k: nat)
    requires Behaviour(es) && FreshIds(es) && FirstDispatch(es, f)
    requires forall i, j :: 0 <= i < j < |es| && es[i].Dispatch? && es[j].Dispatch? ==> Spaced(es, delay, i, j)
    requires forall k :: 0 <= k < |es| && es[k].PickUp? ==> InTime(es, f, delay, k)
    requires k < |es| && es[k].PickUp?
    ensures 0 <= Last(es, ADispatch)
    ensures var last := es[Last(es, ADispatch)].id;
            && (!es[k].verdict.Skips() ==> es[k].verdict.RunOwner? && es[k].id == last)
            && ((exists x :: 0 <= x < k && es[x].Finish? && !es[x].failed) ==> es[k].verdict == SkipExecuted)
            && (es[k].id == last && (forall x :: 0 <= x < k && es[x].Finish? ==> es[x].failed) ==>
                  es[k].verdict.RunOwner?)
  {
    FirstDispatchStarts(es, f);
    FirstBurstIsAll(es, f, k);
    BurstRunsOnlyLast(es, f, delay, k);
    if x :| 0 <= x < k && es[x].Finish? && !es[x].failed {
      FirstBurstIsAll(es, f, x);
    }
  }
}
