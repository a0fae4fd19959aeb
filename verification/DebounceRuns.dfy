/**
 Properties of whole histories of one debounce key.  The histories are unrestricted unless a
 lemma says otherwise: any interleaving, redelivery, failure and expiry.
 */
module DebounceRuns {
  import opened Prelude
  import opened DebounceProtocol
  import opened DebounceHistory

  // ----- executions ---------------------------------------------------------------------

  predicate Begins(es: seq<Step>, b: int) {
    0 <= b < |es| && es[b].PickUp? && !es[b].verdict.Skips()
  }

  /** No finish of the execution that began at `b` lies strictly between `b` and `end`. */
  predicate OpenUntil(es: seq<Step>, b: int, end: int)
    requires Begins(es, b) && end <= |es|
  {
    forall j :: b < j < end && es[j].Finish? ==> es[j].run != es[b].run
  }

  lemma {:induction false} ExecutionInFlight(es: seq<Step>, b: nat, end: nat)
    requires Behaviour(es) && Begins(es, b) && b < end <= |es| && OpenUntil(es, b, end)
    ensures var running := After(es[..end]).running;
            es[b].run in running && running[es[b].run] == Taken(es[b].id, es[b].flag, es[b].verdict)
    decreases end
  {
    BehaviourAt(es, end - 1);
    if b < end - 1 {
      ExecutionInFlight(es, b, end - 1);
    }
  }

  lemma {:induction false} ExecutionBegan(es: seq<Step>, run: nat) returns (b: nat)
    requires Behaviour(es) && run in After(es).running
    ensures Begins(es, b) && es[b].run == run && OpenUntil(es, b, |es|)
    ensures After(es).running[run] == Taken(es[b].id, es[b].flag, es[b].verdict)
  {
    var n := |es| - 1;
    var past, e := es[..n], es[n];
    if Begins(es, n) && e.run == run {
      b := n;
    } else {
      b := ExecutionBegan(past, run);
    }
  }

  /** The execution that began at `b` was the owner's and finished without exception at `k`. */
  predicate Serves(es: seq<Step>, b: int, k: int) {
    && Begins(es, b) && es[b].verdict.RunOwner?
    && b < k < |es| && OpenUntil(es, b, k)
    && es[k].Finish? && es[k].run == es[b].run && !es[k].failed && es[k].effect == Mark
  }

  predicate NoDispatchBetween(es: seq<Step>, from: int, to: int)
    requires -1 <= from && to <= |es|
  {
    forall i :: from < i < to ==> !es[i].Dispatch?
  }

  /** The message that owned the key when it was picked up is the latest dispatch of that moment. */
  lemma OwnerIsLatestDispatch(es: seq<Step>, b: nat)
    requires Behaviour(es) && Begins(es, b) && es[b].verdict.RunOwner?
    ensures 0 <= Last(es[..b], ADispatch) < b
    ensures es[Last(es[..b], ADispatch)].id == es[b].id
  {
    BehaviourAt(es, b);
    KeyIsHistory(es[..b]);
  }

  lemma MarkHasExecution(es: seq<Step>, k: nat) returns (b: nat)
    requires Behaviour(es) && k < |es| && Is(es[k], AMark)
    ensures Serves(es, b, k)
  {
    BehaviourAt(es, k);
    b := ExecutionBegan(es[..k], es[k].run);
    assert es[..k][b] == es[b];
    assert OpenUntil(es, b, k) by {
      forall j | b < j < k && es[j].Finish? ensures es[j].run != es[b].run {
        assert es[..k][j] == es[j];
      }
    }
  }

  // ----- the verdict of a pick-up -------------------------------------------------------

  /** Every verdict is a function of the history before it, of the message and of the clock. */
  function VerdictOf(past: seq<Step>, id: MessageId, threshold: int, now: int): Verdict {
    if Max(Max(Last(past, ADispatch), Last(past, AMark)), Last(past, ABump)) <= Last(past, AnExpiry)
    then RunBare
    else if Max(Last(past, ADispatch), Last(past, AnExpiry)) < Last(past, AMark)
    then SkipExecuted
    else if Last(past, ADispatch) <= Last(past, AnExpiry)
    then Fault
    else
      var since := Seconds(past[Anchor(past)].at);
      if past[Last(past, ADispatch)].id == id then RunOwner(since)
      else if since + threshold < Seconds(now) then RunPastThreshold(since)
      else SkipNotOwner(since)
  }

  lemma JudgedByHistory(past: seq<Step>, id: MessageId, threshold: int, now: int)
    ensures Judge(KeyOf(past).hash, id, threshold, now) == VerdictOf(past, id, threshold, now)
  {
  }

  lemma VerdictIsHistory(es: seq<Step>, j: nat)
    requires Behaviour(es) && j < |es| && es[j].PickUp?
    ensures es[j].verdict == VerdictOf(es[..j], es[j].id, es[j].threshold, es[j].at)
  {
    BehaviourAt(es, j);
    KeyIsHistory(es[..j]);
    JudgedByHistory(es[..j], es[j].id, es[j].threshold, es[j].at);
  }

  /** The latest dispatch, until marked or expired, runs whenever picked up, bumps or no bumps. */
  lemma LatestDispatchRuns(es: seq<Step>, j: nat, d: nat)
    requires Behaviour(es) && d < j < |es| && es[d].Dispatch? && NoDispatchBetween(es, d, j)
    requires es[j].PickUp? && es[j].id == es[d].id
    requires forall i :: d < i < j ==> !Is(es[i], AMark) && !Is(es[i], AnExpiry)
    ensures es[j].verdict.RunOwner?
  {
    VerdictIsHistory(es, j);
    LastUnique(es[..j], ADispatch, d);
    assert Last(es[..j], AnExpiry) < d && Last(es[..j], AMark) < d;
  }

  /**
   Nothing but an expiry or a mark keeps the latest dispatch from running as owner, bumps
   included: it is never passed over or taken for past the threshold, it runs bare or faults only
   after an expiry later than the dispatch, and is skipped only after a mark later than it.
   */
  lemma LatestDispatchVerdict(es: seq<Step>, j: nat, d: nat)
    requires Behaviour(es) && d < j < |es| && es[d].Dispatch? && NoDispatchBetween(es, d, j)
    requires es[j].PickUp? && es[j].id == es[d].id
    ensures match es[j].verdict
            case SkipNotOwner(_) => false
            case RunPastThreshold(_) => false
            case RunOwner(_) => Last(es[..j], AnExpiry) < d && Last(es[..j], AMark) < d
            case SkipExecuted => Max(d, Last(es[..j], AnExpiry)) < Last(es[..j], AMark)
            case _ => d < Last(es[..j], AnExpiry)
  {
    VerdictIsHistory(es, j);
    LastUnique(es[..j], ADispatch, d);
  }

  /**
   The starvation bound: a message passed over for not being the owner comes no later than the
   threshold after the anchor, which is the last bump or the first dispatch since the last
   mark or expiry.
   */
  lemma StarvationBound(es: seq<Step>, j: nat)
    requires Behaviour(es) && j < |es| && es[j].PickUp? && es[j].verdict.SkipNotOwner?
    ensures var past := es[..j];
            && Anchor(past) < j
            && (past[Anchor(past)].Dispatch? || Is(past[Anchor(past)], ABump))
            && LastReset(past) < Anchor(past)
            && Seconds(es[j].at) <= Seconds(past[Anchor(past)].at) + es[j].threshold
  {
    VerdictIsHistory(es, j);
  }

  // ----- no lost dispatch ---------------------------------------------------------------

  /**
   What stands behind every skip at the `executed` test: an owner's execution that finished
   cleanly, nothing dispatched after it finished.  It serves the latest dispatch exactly when
   nothing was dispatched while it was in flight.
   */
  lemma SkipHasService(es: seq<Step>, j: nat) returns (b: nat, k: nat)
    requires Behaviour(es) && j < |es| && es[j].PickUp? && es[j].verdict == SkipExecuted
    ensures k < j && Serves(es, b, k) && NoDispatchBetween(es, k, j)
    ensures var d := Last(es[..j], ADispatch);
            && 0 <= d
            && (d < b <==> NoDispatchBetween(es, b, k))
            && (d < b ==> es[d].id == es[b].id)
  {
    VerdictIsHistory(es, j);
    k := Last(es[..j], AMark);
    b := MarkHasExecution(es, k);
    OwnerIsLatestDispatch(es, b);
    var e := Last(es[..b], ADispatch);
    var d := Last(es[..j], ADispatch);
    NoneAfterLast(es[..j], ADispatch);
    NoneAfterLast(es[..b], ADispatch);
    assert es[..j][e] == es[e] && e <= d;
    assert NoDispatchBetween(es, k, j) by {
      forall i | k < i < j ensures !es[i].Dispatch? {
        assert es[..j][i] == es[i];
      }
    }
    if NoDispatchBetween(es, b, k) {
      assert es[..j][d] == es[d] && es[d].Dispatch?;
      assert d < b;
    } else {
      var i :| b < i < k && es[i].Dispatch?;
      assert es[..j][i] == es[i];
    }
    if d < b {
      assert es[..b][d] == es[d];
      assert e == d;
    }
  }

  /** An execution whose finish hook would mark the key as executed. */
  predicate WouldMark(delivery: Delivery) {
    delivery.timestamp.Some? && !delivery.pastThreshold
  }

  /** No dispatch lands while an execution that could mark the key is in flight. */
  ghost predicate NoDispatchMidExecution(es: seq<Step>) {
    forall i :: 0 <= i < |es| && es[i].Dispatch? ==> NoneWouldMark(es, i)
  }

  ghost predicate NoneWouldMark(es: seq<Step>, i: int)
    requires 0 <= i < |es|
  {
    forall run :: run in After(es[..i]).running ==> !WouldMark(After(es[..i]).running[run])
  }

  /**
   No lost dispatch: then every skip as executed comes after the latest dispatch was picked up,
   as owner, after it was made, and finished without exception.  Expiry may strike at any time.
   */
  lemma NoLostDispatch(es: seq<Step>, j: nat) returns (b: nat, k: nat)
    requires Behaviour(es) && NoDispatchMidExecution(es)
    requires j < |es| && es[j].PickUp? && es[j].verdict == SkipExecuted
    ensures 0 <= Last(es[..j], ADispatch) < b < k < j
    ensures Serves(es, b, k) && es[b].id == es[Last(es[..j], ADispatch)].id
  {
    b, k := SkipHasService(es, j);
    forall i | b < i < k ensures !es[i].Dispatch? {
      MarkingThroughout(es, b, k, i);
      assert es[i].Dispatch? ==> NoneWouldMark(es, i);
    }
  }

  /** An execution that ends up marking could have marked at every moment of its flight. */
  lemma MarkingThroughout(es: seq<Step>, b: nat, k: nat, i: nat)
    requires Behaviour(es) && b < i <= k < |es| && Serves(es, b, k)
    ensures es[b].run in After(es[..i]).running && WouldMark(After(es[..i]).running[es[b].run])
  {
    BehaviourAt(es, k);
    ExecutionInFlight(es, b, k);
    ExecutionInFlight(es, b, i);
  }
}
