/**
 What the debounce key says, told from the history alone: which dispatch owns it, whether the
 owner is done, and since when it has been waiting.  The fields of the hash are proved equal
 to these readings in every history, whatever the interleaving and whenever the key expires.
 */
module DebounceHistory {
  import opened Prelude
  import opened DebounceProtocol

  datatype Kind = AnExpiry | ADispatch | AMark | ABump

  predicate Is(e: Step, kind: Kind) {
    match kind
    case AnExpiry => e.Expire?
    case ADispatch => e.Dispatch?
    case AMark => e.Finish? && e.effect == Mark
    case ABump => e.Finish? && e.effect == Bump
  }

  /** The last step of a kind, or -1. */
  function Last(es: seq<Step>, kind: Kind): (i: int)
    ensures -1 <= i < |es|
    ensures 0 <= i ==> Is(es[i], kind)
  {
    if es == [] then -1
    else if Is(es[|es| - 1], kind) then |es| - 1
    else Last(es[..|es| - 1], kind)
  }

  /** The first dispatch after position `from`, or the end of the history. */
  function FirstDispatchAfter(es: seq<Step>, from: int): (i: int)
    requires -1 <= from < |es| || (from == -1 && es == [])
    ensures from < i <= |es|
    ensures i < |es| ==> es[i].Dispatch?
    decreases |es| - from
  {
    if from + 1 == |es| then |es|
    else if es[from + 1].Dispatch? then from + 1
    else FirstDispatchAfter(es, from + 1)
  }

  lemma {:induction false} NoneAfterLast(es: seq<Step>, kind: Kind)
    ensures forall j :: Last(es, kind) < j < |es| ==> !Is(es[j], kind)
  {
    if es != [] && !Is(es[|es| - 1], kind) {
      NoneAfterLast(es[..|es| - 1], kind);
      forall j | Last(es, kind) < j < |es| ensures !Is(es[j], kind) {
        assert j < |es| - 1 ==> es[..|es| - 1][j] == es[j];
      }
    }
  }

  lemma {:induction false} NoneBeforeFirst(es: seq<Step>, from: int)
    requires -1 <= from < |es| || (from == -1 && es == [])
    ensures forall j :: from < j < FirstDispatchAfter(es, from) ==> !es[j].Dispatch?
    decreases |es| - from
  {
    if from + 1 < |es| && !es[from + 1].Dispatch? {
      NoneBeforeFirst(es, from + 1);
    }
  }

  /** The last step that clears the waiting time: an expiry or a mark. */
  function LastReset(es: seq<Step>): int {
    Max(Last(es, AnExpiry), Last(es, AMark))
  }

  /**
   The step the waiting time is counted from: the last bump after the last reset, else the
   first dispatch after it, else the end of the history.
   */
  function Anchor(es: seq<Step>): (i: int)
    ensures LastReset(es) < i <= |es|
    ensures i < |es| ==> es[i].Dispatch? || Is(es[i], ABump)
    ensures i < |es| <==> LastReset(es) < Max(Last(es, ADispatch), Last(es, ABump))
  {
    if LastReset(es) < Last(es, ABump) then Last(es, ABump)
    else
      NoneBeforeFirst(es, LastReset(es));
      NoneAfterLast(es, ADispatch);
      FirstDispatchAfter(es, LastReset(es))
  }

  function WaitingSince(es: seq<Step>): Option<int> {
    if Anchor(es) < |es| then Some(Seconds(es[Anchor(es)].at)) else None
  }

  function OwnerOf(es: seq<Step>): Option<MessageId> {
    var d := Last(es, ADispatch);
    if Last(es, AnExpiry) < d then Some(es[d].id) else None
  }

  function ExecutedOf(es: seq<Step>): Option<int> {
    var d, m := Last(es, ADispatch), Last(es, AMark);
    if Max(d, m) <= Last(es, AnExpiry) then None
    else Some(if d < m then 1 else 0)
  }

  function DeadlineOf(es: seq<Step>): Option<int> {
    var t := Max(Last(es, ADispatch), Last(es, ABump));
    if Last(es, AnExpiry) < t then Some(es[t].at + KEY_TTL_MS) else None
  }

  function KeyOf(es: seq<Step>): Key {
    Key(Hash(WaitingSince(es), OwnerOf(es), ExecutedOf(es)), DeadlineOf(es))
  }

  lemma LastUnique(es: seq<Step>, kind: Kind, i: int)
    requires -1 <= i < |es|
    requires 0 <= i ==> Is(es[i], kind)
    requires forall j :: i < j < |es| ==> !Is(es[j], kind)
    ensures Last(es, kind) == i
  {
    NoneAfterLast(es, kind);
  }

  lemma {:induction false} FirstOfLonger(es: seq<Step>, from: int)
    requires es != [] && -1 <= from < |es| - 1
    ensures var n := |es| - 1;
            var before := FirstDispatchAfter(es[..n], from);
            FirstDispatchAfter(es, from) ==
            if before < n then before else if es[n].Dispatch? then n else n + 1
    decreases |es| - from
  {
    if from + 1 < |es| - 1 && !es[from + 1].Dispatch? {
      FirstOfLonger(es, from + 1);
    }
  }

  lemma OwnerOfLonger(es: seq<Step>)
    requires es != []
    ensures var e := es[|es| - 1];
            OwnerOf(es) == if e.Dispatch? then Some(e.id) else if e.Expire? then None else OwnerOf(es[..|es| - 1])
  {
  }

  lemma ExecutedOfLonger(es: seq<Step>)
    requires es != []
    ensures var e := es[|es| - 1];
            ExecutedOf(es) ==
            if e.Dispatch? then Some(0)
            else if e.Expire? then None
            else if Is(e, AMark) then Some(1)
            else ExecutedOf(es[..|es| - 1])
  {
  }

  lemma DeadlineOfLonger(es: seq<Step>)
    requires es != []
    ensures var e := es[|es| - 1];
            DeadlineOf(es) ==
            if e.Expire? then None
            else if e.Dispatch? || Is(e, ABump) then Some(e.at + KEY_TTL_MS)
            else DeadlineOf(es[..|es| - 1])
  {
  }

  lemma WaitingSinceLonger(es: seq<Step>)
    requires es != []
    ensures var e := es[|es| - 1];
            var before := WaitingSince(es[..|es| - 1]);
            WaitingSince(es) ==
            if e.Expire? || Is(e, AMark) then None
            else if Is(e, ABump) then Some(Seconds(e.at))
            else if e.Dispatch? && before.None? then Some(Seconds(e.at))
            else before
  {
    if LastReset(es) < |es| - 1 {
      FirstOfLonger(es, LastReset(es));
    }
  }

  /** Every field of the key, and its deadline, is what the history says. */
  lemma {:induction false} KeyIsHistory(es: seq<Step>)
    requires Behaviour(es)
    ensures After(es).key == KeyOf(es)
    ensures es != [] ==> After(es).now == es[|es| - 1].at
  {
    if es != [] {
      KeyIsHistory(es[..|es| - 1]);
      OwnerOfLonger(es);
      ExecutedOfLonger(es);
      DeadlineOfLonger(es);
      WaitingSinceLonger(es);
    }
  }
}
