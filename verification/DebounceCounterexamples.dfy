/** Histories that show why the hypotheses of the debounce results are there. */
module DebounceCounterexamples {
  import opened Prelude
  import opened DebounceProtocol
  import opened DebounceHistory
  import opened DebounceRuns
  import opened DebounceBursts

  lemma Extend(es: seq<Step>, e: Step)
    requires Behaviour(es) && Enabled(After(es), e)
    ensures Behaviour(es + [e]) && After(es + [e]) == Next(After(es), e)
  {
    assert (es + [e])[..|es|] == es;
  }

  /** The history goes on by one step, to a known state. */
  lemma Reaches(es: seq<Step>, s: State, e: Step)
    requires Behaviour(es) && After(es) == s && Enabled(s, e)
    ensures Behaviour(es + [e]) && After(es + [e]) == Next(s, e)
    ensures (es + [e])[..|es|] == es && (es + [e])[|es|] == e
  {
    Extend(es, e);
  }

  /** One message, dispatched and picked up by its owner. */
  lemma OwnerExecutes() returns (es: seq<Step>)
    ensures Behaviour(es) && |es| == 2 && es[0].Dispatch? && es[1].PickUp? && es[1].id == "first"
    ensures After(es) == State(15_000, Key(Hash(Some(0), Some("first"), Some(0)), Some(KEY_TTL_MS)),
                               map[0 := Delivery("first", Some(0), false)], {})
  {
    var e0 := Dispatch(0, "first");
    var e1 := PickUp(15_000, 0, "first", 900, false, RunOwner(0));
    Reaches([], INIT, e0);
    Reaches([] + [e0], Next(INIT, e0), e1);
    es := [] + [e0] + [e1];
  }

  /** A second message is dispatched meanwhile, and the finish marks the key. */
  lemma OvertakenOwnerMarks() returns (es: seq<Step>)
    ensures Behaviour(es)
    ensures |es| == 4 && es[2].Dispatch? && es[2].id == "second" && !NoneWouldMark(es, 2)
    ensures forall i :: 0 <= i < 4 && es[i].PickUp? ==> es[i].id == "first"
    ensures After(es).now == 16_000 && After(es).key.hash == Hash(None, Some("second"), Some(1)) && After(es).running == map[]
  {
    var owner := OwnerExecutes();
    var e2, e3 := Dispatch(15_500, "second"), Finish(16_000, 0, false, Mark);
    Reaches(owner, After(owner), e2);
    Reaches(owner + [e2], Next(After(owner), e2), e3);
    es := owner + [e2] + [e3];
    assert es[..2] == owner && es[2] == e2;
    assert 0 in After(es[..2]).running && WouldMark(After(es[..2]).running[0]);
  }

  /**
   A dispatch that lands while the previous owner executes is marked as executed by that
   owner's finish, which never compares message ids; its own message is then skipped.
   */
  lemma DispatchMidExecutionIsLost() returns (es: seq<Step>)
    ensures Behaviour(es) && !NoDispatchMidExecution(es)
    ensures |es| == 5 && es[4].PickUp? && es[4].verdict == SkipExecuted
    ensures es[2].Dispatch? && es[2].id == es[4].id
    ensures forall i :: 0 <= i < 4 && es[i].PickUp? ==> es[i].id != es[4].id
  {
    var marked := OvertakenOwnerMarks();
    var e4 := PickUp(30_500, 1, "second", 900, false, SkipExecuted);
    Reaches(marked, After(marked), e4);
    es := marked + [e4];
    assert es[..2] == marked[..2];
    assert !NoneWouldMark(es, 2);
  }

  /** Two messages; the first, picked up past the threshold, still executes when the key expires. */
  lemma ExpiredMidExecution() returns (es: seq<Step>)
    ensures Behaviour(es) && !NoExpiryMidExecution(es)
    ensures |es| == 4 && es[1].Dispatch? && es[1].id == "second"
    ensures After(es) == State(3_601_000, NO_KEY, map[0 := Delivery("first", Some(0), true)], {"first"})
  {
    var e0, e1 := Dispatch(0, "first"), Dispatch(1_000, "second");
    var e2 := PickUp(902_000, 0, "first", 900, false, RunPastThreshold(0));
    var e3 := Expire(3_601_000);
    Reaches([], INIT, e0);
    Reaches([] + [e0], Next(INIT, e0), e1);
    var two := [] + [e0] + [e1];
    assert After(two).key == Key(Hash(Some(0), Some("second"), Some(0)), Some(3_601_000));
    Reaches(two, After(two), e2);
    var late := two + [e2];
    Reaches(late, Next(After(two), e2), e3);
    es := late + [e3];
    assert es[..3] == late && 0 in After(es[..3]).running;
  }

  /**
   A key that expires under a past-threshold execution is recreated by its bump with nothing
   but a timestamp: the next pick-up, of the owner, reads a missing `message_id`.
   */
  lemma ExpiryMidExecutionFaults() returns (es: seq<Step>)
    ensures Behaviour(es) && !NoExpiryMidExecution(es)
    ensures |es| == 6 && es[5].PickUp? && es[5].verdict == Fault
    ensures es[1].Dispatch? && es[5].id == es[1].id
    ensures After(es).key.hash.owner == None && After(es).key.hash != NO_HASH
  {
    var expired := ExpiredMidExecution();
    var e4 := Finish(3_602_000, 0, false, Bump);
    var e5 := PickUp(3_603_000, 1, "second", 900, false, Fault);
    Reaches(expired, After(expired), e4);
    Reaches(expired + [e4], Next(After(expired), e4), e5);
    es := expired + [e4] + [e5];
    ExpiryRemains(expired, es);
  }

  lemma ExpiryRemains(es: seq<Step>, longer: seq<Step>)
    requires |es| <= |longer| && longer[..|es|] == es && !NoExpiryMidExecution(es)
    ensures !NoExpiryMidExecution(longer)
  {
    var i, run :| 0 <= i < |es| && es[i].Expire? && run in After(es[..i]).running && After(es[..i]).running[run].timestamp.Some?;
    assert longer[..i] == es[..i] && longer[i] == es[i];
  }
}
