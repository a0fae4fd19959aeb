/**
 The bulk job delay calculator of server/rapidly/worker/_enqueue.py: how the delays of a batch
 of jobs are laid out in time, with the integer division the code uses.
 */
module BulkDelay {
  import opened NatSets
  import opened Prelude

  /** The closure returned: delays growing linearly, or jobs batched into equally spaced slots. */
  datatype Calculator =
    | Linear(step: nat)
    | Batched(spacing: nat, baseSize: nat, overflowCount: nat, overflowBoundary: nat)

  function Slot(c: Calculator, index: nat): nat
    requires c.Batched? && 0 < c.baseSize
  {
    if index < c.overflowBoundary then index / (c.baseSize + 1)
    else c.overflowCount + (index - c.overflowBoundary) / c.baseSize
  }

  function Milliseconds(c: Calculator, index: nat): nat
    requires c.Batched? ==> 0 < c.baseSize
  {
    match c
    case Linear(step) => index * step
    case Batched(spacing, _, _, _) => Slot(c, index) * spacing
  }

  /** The result of calling the closure: a zero delay is reported as no delay. */
  function Delay(c: Calculator, index: nat): Option<nat>
    requires c.Batched? ==> 0 < c.baseSize
  {
    var ms := Milliseconds(c, index);
    if ms == 0 then None else Some(ms)
  }

  /** The four cases, in the order the code tries them. */
  datatype Case = Comfortable | Compressed | Spilling | Batching

  function CaseOf(total: nat, target: nat, least: nat, spread: nat, allowSpill: bool): Case {
    if total * target <= spread then Comfortable
    else if least <= spread / total then Compressed
    else if allowSpill then Spilling
    else Batching
  }

  /** Jobs dealt into slots as evenly as possible, the `over` larger slots first. */
  datatype Deal = Deal(slots: nat, size: nat, over: nat)

  function DealOf(total: nat, least: nat, spread: nat): Deal
    requires 0 < least
  {
    var slots := spread / least + 1;
    Deal(slots, total / slots, total % slots)
  }

  function CalculatorOf(d: Deal, spacing: nat): Calculator {
    Batched(spacing, d.size, d.over, d.over * (d.size + 1))
  }

  /** The calculator for all arguments. */
  function Chosen(total: nat, target: nat, least: nat, spread: nat, allowSpill: bool): Calculator {
    match CaseOf(total, target, least, spread, allowSpill)
    case Comfortable => Linear(target)
    case Compressed => Linear(spread / total)
    case Spilling => Linear(least)
    case Batching => CalculatorOf(DealOf(total, least, spread), least)
  }

  method MakeBulkJobDelayCalculator(total: nat, target: nat, least: nat, spread: nat, allowSpill: bool)
    returns (c: Calculator)
    ensures c == Chosen(total, target, least, spread, allowSpill)
    ensures c.Batched? ==> 0 < c.baseSize
  {
    if total * target <= spread {
      return Linear(target);
    }
    var compressed := spread / total;
    if least <= compressed {
      return Linear(compressed);
    }
    if allowSpill {
      return Linear(least);
    }
    c := MakeBatched(total, least, spread);
  }

  /** The batching case; its guards make both divisors positive. */
  method MakeBatched(total: nat, least: nat, spread: nat) returns (c: Calculator)
    requires 0 < total && spread / total < least
    ensures c == CalculatorOf(DealOf(total, least, spread), least) && 0 < c.baseSize
  {
    var numSlots := spread / least + 1;
    var baseSize := total / numSlots;
    var overflowSize := baseSize + 1;
    var overflowCount := total % numSlots;
    ghost var d := Deal(numSlots, baseSize, overflowCount);
    assert d == DealOf(total, least, spread);
    DealIsFair(total, least, spread);
    c := Batched(least, baseSize, overflowCount, overflowCount * overflowSize);
    assert c == CalculatorOf(d, least);
  }

  /** The slot, with the divisions the closure performs. */
  method CallSlot(c: Calculator, index: nat) returns (slot: nat)
    requires c.Batched? && 0 < c.baseSize
    ensures slot == Slot(c, index)
  {
    if index < c.overflowBoundary {
      slot := index / (c.baseSize + 1);
    } else {
      slot := c.overflowCount + (index - c.overflowBoundary) / c.baseSize;
    }
  }

  /** The closure. */
  method Call(c: Calculator, index: nat) returns (delay: Option<nat>)
    requires c.Batched? ==> 0 < c.baseSize
    ensures delay == Delay(c, index)
    ensures delay.None? <==> Milliseconds(c, index) == 0
    ensures delay.Some? ==> delay.value == Milliseconds(c, index)
  {
    var ms: nat;
    if c.Linear? {
      ms := index * c.step;
    } else {
      var slot := CallSlot(c, index);
      ms := slot * c.spacing;
    }
    delay := if ms == 0 then None else Some(ms);
  }

  // ----- arithmetic ---------------------------------------------------------------------

  lemma MulLe(a: nat, b: nat, c: nat)
    requires a <= b
    ensures a * c <= b * c
  {
  }

  lemma MulSucc(a: nat, b: nat)
    ensures a * (b + 1) == a * b + a
    ensures (a + 1) * b == a * b + b
  {
  }

  /** `q` is how often `d` goes into `n`. */
  predicate GoesInto(d: nat, n: nat, q: nat) {
    q * d <= n < q * d + d
  }

  lemma DivBounds(n: nat, d: nat)
    requires 0 < d
    ensures GoesInto(d, n, n / d)
    ensures n == n / d * d + n % d
  {
  }

  lemma {:induction false} QuotientUnique(n: nat, d: nat, q: nat)
    requires GoesInto(d, n, q)
    ensures n / d == q
  {
    DivBounds(n, d);
    SameQuotient(n, d, n / d, q);
  }

  lemma SameQuotient(n: nat, d: nat, q: nat, r: nat)
    requires GoesInto(d, n, q) && GoesInto(d, n, r)
    ensures q == r
  {
    if r < q {
      MulLe(r + 1, q, d);
    } else if q < r {
      MulLe(q + 1, r, d);
    }
  }

  /** If the jobs do not fit at the least distance, there are more jobs than slots. */
  lemma SlotsFit(total: nat, least: nat, spread: nat, compressed: nat, q: nat)
    requires GoesInto(total, spread, compressed) && compressed < least && GoesInto(least, spread, q)
    ensures q < total
  {
    MulLe(compressed + 1, least, total);
    if total <= q {
      MulLe(total, q, least);
    }
  }

  // ----- dealing ------------------------------------------------------------------------

  predicate Fair(d: Deal) {
    1 <= d.size && d.over < d.slots
  }

  /** How many jobs slot `s` holds. */
  function Holds(d: Deal, s: nat): nat {
    if s < d.over then d.size + 1 else d.size
  }

  /** How many jobs the slots before `s` hold together. */
  function Start(d: Deal, s: nat): nat {
    if s == 0 then 0 else Start(d, s - 1) + Holds(d, s - 1)
  }

  lemma {:induction false} StartClosed(d: Deal, s: nat)
    ensures Start(d, s) == s * d.size + if s < d.over then s else d.over
  {
    if s > 0 {
      StartClosed(d, s - 1);
      MulSucc(s - 1, d.size);
    }
  }

  /** A fair deal of `total` jobs into slots that span at most `spread`. */
  ghost predicate Deals(d: Deal, total: nat, least: nat, spread: nat) {
    Fair(d) && Start(d, d.slots) == total && (d.slots - 1) * least <= spread
  }

  lemma DealHoldsAll(d: Deal, total: nat)
    requires 0 < d.slots <= total && total == d.size * d.slots + d.over && d.over < d.slots
    ensures Fair(d) && Start(d, d.slots) == total
  {
    StartClosed(d, d.slots);
  }

  /**
   When the guards of the first three cases fail, both divisors of the batching case are
   positive (no division by zero) and the slots hold all jobs, no more and no less.
   */
  lemma DealIsFair(total: nat, least: nat, spread: nat)
    requires 0 < total && spread / total < least
    ensures Deals(DealOf(total, least, spread), total, least, spread)
  {
    var q := spread / least;
    DivBounds(spread, total);
    DivBounds(spread, least);
    SlotsFit(total, least, spread, spread / total, q);
    DivBounds(total, q + 1);
    DealHoldsAll(DealOf(total, least, spread), total);
  }

  lemma {:induction false} StartsOrdered(d: Deal, s: nat, t: nat)
    requires s <= t
    ensures Start(d, s) <= Start(d, t)
    decreases t - s
  {
    if s < t {
      StartsOrdered(d, s, t - 1);
    }
  }

  lemma SlotArithmetic(size: nat, over: nat, index: nat, s: nat)
    requires 0 < size
    requires s * size + (if s < over then s else over) <= index
    requires index < (s + 1) * size + if s + 1 < over then s + 1 else over
    ensures index < over * (size + 1) ==> GoesInto(size + 1, index, s)
    ensures over * (size + 1) <= index ==> over <= s && GoesInto(size, index - over * (size + 1), s - over)
  {
    MulSucc(s, size);
    MulSucc(over, size);
    MulSucc(s + 1, size);
    if s < over {
      MulLe(s + 1, over, size + 1);
    } else {
      var k := s - over;
      assert s * size == over * size + k * size;
      MulSucc(k, size);
    }
  }

  /** The slot the closure computes by division is the one whose interval holds the index. */
  lemma SlotIs(d: Deal, spacing: nat, index: nat, s: nat)
    requires Fair(d) && Start(d, s) <= index < Start(d, s + 1)
    ensures Slot(CalculatorOf(d, spacing), index) == s
  {
    StartClosed(d, s);
    StartClosed(d, s + 1);
    SlotArithmetic(d.size, d.over, index, s);
    if index < d.over * (d.size + 1) {
      QuotientUnique(index, d.size + 1, s);
    } else {
      QuotientUnique(index - d.over * (d.size + 1), d.size, s - d.over);
    }
  }

  /** Every index falls into some slot. */
  lemma {:induction false} SlotExists(d: Deal, index: nat, upTo: nat) returns (s: nat)
    requires index < Start(d, upTo)
    ensures s < upTo && Start(d, s) <= index < Start(d, s + 1)
    decreases upTo
  {
    if Start(d, upTo - 1) <= index {
      s := upTo - 1;
    } else {
      s := SlotExists(d, index, upTo - 1);
    }
  }

  /** Slot `s` holds the indices of its interval and no others. */
  lemma SlotHolds(d: Deal, spacing: nat, s: nat, index: nat)
    requires Fair(d) && s < d.slots && index < Start(d, d.slots)
    ensures Slot(CalculatorOf(d, spacing), index) == s <==> Start(d, s) <= index < Start(d, s + 1)
  {
    var t := SlotExists(d, index, d.slots);
    SlotIs(d, spacing, index, t);
    if Start(d, s) <= index < Start(d, s + 1) {
      SlotIs(d, spacing, index, s);
    }
  }

  lemma SlotsMonotone(d: Deal, spacing: nat, i: nat, j: nat)
    requires Fair(d) && i <= j < Start(d, d.slots)
    ensures Slot(CalculatorOf(d, spacing), i) <= Slot(CalculatorOf(d, spacing), j) < d.slots
  {
    var s := SlotExists(d, i, d.slots);
    var t := SlotExists(d, j, d.slots);
    SlotIs(d, spacing, i, s);
    SlotIs(d, spacing, j, t);
    if t < s {
      StartsOrdered(d, t + 1, s);
    }
  }

  /** The indices below `total` that the calculator puts into slot `s`. */
  ghost function Members(c: Calculator, total: nat, s: nat): set<nat>
    requires c.Batched? && 0 < c.baseSize
  {
    set i: nat | i < total && Slot(c, i) == s
  }

  lemma MembersAreInterval(d: Deal, spacing: nat, s: nat)
    requires Fair(d) && s < d.slots
    ensures |Members(CalculatorOf(d, spacing), Start(d, d.slots), s)| == Holds(d, s)
  {
    var c, total := CalculatorOf(d, spacing), Start(d, d.slots);
    StartsOrdered(d, s + 1, d.slots);
    forall i: nat | i < total
      ensures Slot(c, i) == s <==> Within(i, Start(d, s), Start(d, s + 1))
    {
      SlotHolds(d, spacing, s, i);
    }
    assert Members(c, total, s) == Interval(Start(d, s), Start(d, s + 1));
    IntervalSize(Start(d, s), Start(d, s + 1));
  }

  /** In the batching case the `over` leading slots hold one job more than all the others. */
  lemma SlotSizes(total: nat, target: nat, least: nat, spread: nat, s: nat)
    requires spread < total * target && spread < total * least && s < spread / least + 1
    ensures var c, slots := Chosen(total, target, least, spread, false), spread / least + 1;
            && c.Batched? && 0 < c.baseSize && c.spacing == least
            && |Members(c, total, s)| == total / slots + if s < total % slots then 1 else 0
  {
    CaseIs(total, target, least, spread, false);
    DealIsFair(total, least, spread);
    DealtSizes(DealOf(total, least, spread), total, least, spread, s);
  }

  /** The cases in terms of the arguments: what fits the spread at the target or at the least distance. */
  lemma CaseIs(total: nat, target: nat, least: nat, spread: nat, allowSpill: bool)
    ensures CaseOf(total, target, least, spread, allowSpill) ==
            if total * target <= spread then Comfortable
            else if total * least <= spread then Compressed
            else if allowSpill then Spilling
            else Batching
  {
    if spread < total * target {
      DivBounds(spread, total);
      if least <= spread / total {
        MulLe(least, spread / total, total);
      } else {
        MulLe(spread / total + 1, least, total);
      }
    }
  }

  /**
   The linear cases: the target distance if all fits the spread with it, else the largest distance
   that fits if that is not below the least, else, when spilling is allowed, the least.
   */
  lemma LinearExactly(total: nat, target: nat, least: nat, spread: nat, allowSpill: bool, i: nat)
    ensures var c := Chosen(total, target, least, spread, allowSpill);
            && (c.Batched? <==> spread < total * target && spread < total * least && !allowSpill)
            && (total * target <= spread ==> Milliseconds(c, i) == i * target)
            && (spread < total * target && total * least <= spread ==>
                  && c.step * total <= spread < c.step * total + total
                  && Milliseconds(c, i) == i * c.step)
            && (spread < total * target && spread < total * least && allowSpill ==> Milliseconds(c, i) == i * least)
  {
    CaseIs(total, target, least, spread, allowSpill);
    if 0 < total {
      DivBounds(spread, total);
    }
  }

  lemma DealtSizes(d: Deal, total: nat, least: nat, spread: nat, s: nat)
    requires Deals(d, total, least, spread) && s < d.slots
    ensures |Members(CalculatorOf(d, least), total, s)| == if s < d.over then d.size + 1 else d.size
  {
    MembersAreInterval(d, least, s);
  }

  // ----- all cases ----------------------------------------------------------------------

  lemma BatchedMonotone(d: Deal, spacing: nat, i: nat, j: nat)
    requires Fair(d) && i <= j < Start(d, d.slots)
    ensures Slot(CalculatorOf(d, spacing), i) * spacing <= Slot(CalculatorOf(d, spacing), j) * spacing
  {
    SlotsMonotone(d, spacing, i, j);
    MulLe(Slot(CalculatorOf(d, spacing), i), Slot(CalculatorOf(d, spacing), j), spacing);
  }

  /** The closure is total on the indices of the batch, and delays never decrease. */
  lemma DelaysMonotone(total: nat, target: nat, least: nat, spread: nat, allowSpill: bool, i: nat, j: nat)
    requires i <= j < total
    ensures var c := Chosen(total, target, least, spread, allowSpill);
            && (c.Batched? ==> 0 < c.baseSize)
            && Milliseconds(c, i) <= Milliseconds(c, j)
  {
    var c := Chosen(total, target, least, spread, allowSpill);
    if c.Batched? {
      DealIsFair(total, least, spread);
      BatchedMonotone(DealOf(total, least, spread), least, i, j);
    } else {
      MulLe(i, j, c.step);
    }
  }

  lemma BatchedBounded(d: Deal, total: nat, least: nat, spread: nat, i: nat)
    requires Deals(d, total, least, spread) && i < total
    ensures Slot(CalculatorOf(d, least), i) * least <= spread
  {
    SlotsMonotone(d, least, i, i);
    MulLe(Slot(CalculatorOf(d, least), i), d.slots - 1, least);
  }

  lemma CompressedBounded(total: nat, spread: nat, i: nat)
    requires i < total
    ensures i * (spread / total) <= spread
  {
    DivBounds(spread, total);
    MulLe(i, total, spread / total);
  }

  /** Except when spilling, no delay exceeds the spread. */
  lemma DelaysBounded(total: nat, target: nat, least: nat, spread: nat, allowSpill: bool, i: nat)
    requires i < total && !(allowSpill && spread < total * target && spread < total * least)
    ensures var c := Chosen(total, target, least, spread, allowSpill);
            && (c.Batched? ==> 0 < c.baseSize)
            && Milliseconds(c, i) <= spread
  {
    CaseIs(total, target, least, spread, allowSpill);
    match CaseOf(total, target, least, spread, allowSpill)
    case Comfortable => MulLe(i, total, target);
    case Compressed => CompressedBounded(total, spread, i);
    case Batching =>
      DealIsFair(total, least, spread);
      BatchedBounded(DealOf(total, least, spread), total, least, spread, i);
  }

  /** Spilling keeps neighbours exactly the minimum apart; the whole batch then outlasts the spread. */
  lemma SpillSpacing(total: nat, target: nat, least: nat, spread: nat, i: nat)
    requires spread < total * target && spread < total * least
    ensures var c := Chosen(total, target, least, spread, true);
            && Milliseconds(c, i + 1) == Milliseconds(c, i) + least
            && spread < Milliseconds(c, total)
  {
    CaseIs(total, target, least, spread, true);
    MulSucc(i, least);
  }

  /** The first job is never delayed. */
  lemma FirstUndelayed(total: nat, target: nat, least: nat, spread: nat, allowSpill: bool)
    requires 0 < total
    ensures var c := Chosen(total, target, least, spread, allowSpill);
            && (c.Batched? ==> 0 < c.baseSize)
            && Delay(c, 0) == None
  {
    if CaseOf(total, target, least, spread, allowSpill) == Batching {
      DealIsFair(total, least, spread);
      FirstSlot(DealOf(total, least, spread), least);
    }
  }

  lemma FirstSlot(d: Deal, spacing: nat)
    requires Fair(d)
    ensures Slot(CalculatorOf(d, spacing), 0) == 0
  {
    assert Start(d, 1) == Start(d, 0) + Holds(d, 0);
    SlotIs(d, spacing, 0, 0);
  }
}
