/** Customer short ids of server/rapidly/models/customer.py: their generation and their display. */
module ShortId {

  // ----- base 26 ------------------------------------------------------------------------

  const BASE26_CHARS := "ABCDEFGHIJKLMNOPQRSTUVWXYZ"
  const SHORT_ID_WIDTH := 8

  function Digit(d: nat): char
    requires d < 26
  {
    BASE26_CHARS[d]
  }

  /** The digits of a number, most significant first; none for zero or less. */
  function Digits(n: int): string
    decreases n
  {
    if n <= 0 then "" else Digits(n / 26) + [Digit(n % 26)]
  }

  function Padding(n: nat): string {
    seq(n, i => 'A')
  }

  /** Padding on the left to a width, never cutting. */
  function RightJustified(s: string, width: nat): (r: string)
    ensures |r| == if |s| < width then width else |s|
  {
    if |s| < width then Padding(width - |s|) + s else s
  }

  function Encoded(shortId: int): string {
    RightJustified(Digits(shortId), SHORT_ID_WIDTH)
  }

  function Reversed(s: string): string {
    if s == "" then "" else Reversed(s[1..]) + [s[0]]
  }

  lemma {:induction false} ReversedApp(s: string, c: char)
    ensures Reversed(s + [c]) == [c] + Reversed(s)
  {
    if s != "" {
      ReversedApp(s[1..], c);
      assert (s + [c])[1..] == s[1..] + [c];
    }
  }

  /** `short_id_to_base26` */
  method ShortIdToBase26(shortId: int) returns (r: string)
    ensures r == Encoded(shortId)
  {
    var chars := "";
    var remaining := shortId;
    while remaining > 0
      invariant Digits(remaining) + Reversed(chars) == Digits(shortId)
      decreases remaining
    {
      ReversedApp(chars, Digit(remaining % 26));
      assert Digits(remaining) == Digits(remaining / 26) + [Digit(remaining % 26)];
      chars := chars + [Digit(remaining % 26)];
      remaining := remaining / 26;
    }
    assert Digits(remaining) + Reversed(chars) == Reversed(chars);
    return RightJustified(Reversed(chars), SHORT_ID_WIDTH);
  }

  function ValueOf(c: char): nat {
    if 'A' <= c <= 'Z' then (c - 'A') as nat else 0
  }

  /** Reads a base 26 numeral. */
  function Decoded(s: string): nat {
    if s == "" then 0 else 26 * Decoded(s[..|s| - 1]) + ValueOf(s[|s| - 1])
  }

  lemma DigitValue(d: nat)
    requires d < 26
    ensures ValueOf(Digit(d)) == d
  {
  }

  lemma {:induction false} DecodedDigits(n: nat)
    ensures Decoded(Digits(n)) == n
  {
    if n > 0 {
      DecodedDigits(n / 26);
      DigitValue(n % 26);
      assert Digits(n)[..|Digits(n)| - 1] == Digits(n / 26);
    }
  }

  /** Padding does not change the number. */
  lemma {:induction false} DecodedPadded(n: nat, s: string)
    ensures Decoded(Padding(n) + s) == Decoded(s)
  {
    var all := Padding(n) + s;
    if s == "" {
      assert all == Padding(n);
      if n > 0 {
        DecodedPadded(n - 1, "");
        assert all[..n - 1] == Padding(n - 1) + "";
      }
    } else {
      DecodedPadded(n, s[..|s| - 1]);
      assert all[..|all| - 1] == Padding(n) + s[..|s| - 1];
    }
  }

  /** Reading the displayed id back gives the number, for every number from zero. */
  lemma Base26RoundTrip(n: nat)
    ensures Decoded(Encoded(n)) == n
  {
    DecodedDigits(n);
    if |Digits(n)| < SHORT_ID_WIDTH {
      DecodedPadded(SHORT_ID_WIDTH - |Digits(n)|, Digits(n));
    }
  }

  predicate AllLetters(s: string) {
    forall i :: 0 <= i < |s| ==> 'A' <= s[i] <= 'Z'
  }

  lemma {:induction false} DigitsAreLetters(n: nat)
    ensures AllLetters(Digits(n))
  {
    if n > 0 {
      DigitsAreLetters(n / 26);
    }
  }

  /** The display is the one string of letters of its length that reads as the number. */
  lemma EncodedIsNumeral(n: nat, s: string)
    ensures AllLetters(Encoded(n))
    ensures AllLetters(s) && |s| == |Encoded(n)| ==> (Decoded(s) == n <==> s == Encoded(n))
  {
    DigitsAreLetters(n);
    Base26RoundTrip(n);
    if AllLetters(s) && |s| == |Encoded(n)| && Decoded(s) == n {
      OneNumeral(s, Encoded(n));
    }
  }

  lemma SameDigit(a: nat, c: nat, b: nat, d: nat)
    requires 26 * a + c == 26 * b + d && c < 26 && d < 26
    ensures a == b && c == d
  {
  }

  lemma SameLetter(c: char, d: char)
    requires 'A' <= c <= 'Z' && 'A' <= d <= 'Z' && ValueOf(c) == ValueOf(d)
    ensures c == d
  {
  }

  lemma {:induction false} OneNumeral(s: string, t: string)
    requires AllLetters(s) && AllLetters(t) && |s| == |t| && Decoded(s) == Decoded(t)
    ensures s == t
  {
    if s != "" {
      var n := |s| - 1;
      SameDigit(Decoded(s[..n]), ValueOf(s[n]), Decoded(t[..n]), ValueOf(t[n]));
      SameLetter(s[n], t[n]);
      OneNumeral(s[..n], t[..n]);
      assert s == s[..n] + [s[n]] && t == t[..n] + [t[n]];
    }
  }

  /** Two ids are displayed alike exactly when they are equal or neither is positive. */
  lemma Base26Injective(m: int, n: int)
    ensures Encoded(m) == Encoded(n) <==> m == n || (m <= 0 && n <= 0)
  {
    Base26RoundTrip(if m < 0 then 0 else m);
    Base26RoundTrip(if n < 0 then 0 else n);
    assert m <= 0 ==> Encoded(m) == Encoded(0);
    assert n <= 0 ==> Encoded(n) == Encoded(0);
  }

  function Pow26(k: nat): (p: nat)
    ensures 1 <= p
  {
    if k == 0 then 1 else 26 * Pow26(k - 1)
  }

  lemma {:induction false} DigitsFit(n: nat, k: nat)
    ensures |Digits(n)| <= k <==> n < Pow26(k)
  {
    if k > 0 && n > 0 {
      DigitsFit(n / 26, k - 1);
    }
  }

  /** The display has exactly eight letters for ids below 26 to the eighth, more from there on. */
  lemma EightLettersExactly(n: nat)
    ensures |Encoded(n)| == 8 <==> n < 208_827_064_576
    ensures 8 <= |Encoded(n)|
  {
    DigitsFit(n, 8);
    assert Pow26(8) == 208_827_064_576;
  }

  // ----- generation ---------------------------------------------------------------------

  const OUR_EPOCH := 1_672_531_200_000
  const PER_MILLISECOND := 1024

  const SEQUENCE_BITS := 10

  /** How far a number is from those that are all zeros or all ones. */
  function Magnitude(a: int): nat {
    if a < 0 then -1 - a else a
  }

  /** The OR of two numbers in two's complement, bit by bit from the lowest. */
  function Or(a: int, b: int): int
    decreases Magnitude(a) + Magnitude(b)
  {
    if -1 <= a <= 0 && -1 <= b <= 0 then (if a == 0 then b else -1)
    else 2 * Or(a / 2, b / 2) + (if a % 2 == 0 then b % 2 else 1)
  }

  /** Bit `k` of a number in two's complement. */
  function Bit(a: int, k: nat): int
    decreases k
  {
    if k == 0 then a % 2 else Bit(a / 2, k - 1)
  }

  /** A bit of the OR is set exactly when it is set in one of the two. */
  lemma {:induction false} OrBits(a: int, b: int, k: nat)
    ensures Bit(Or(a, b), k) == 1 <==> Bit(a, k) == 1 || Bit(b, k) == 1
    decreases k
  {
    if k > 0 {
      OrBits(a / 2, b / 2, k - 1);
      OrHalved(a, b);
    }
  }

  lemma OrHalved(a: int, b: int)
    ensures Or(a, b) / 2 == Or(a / 2, b / 2)
  {
  }

  function ShiftLeft(a: int, bits: nat): int {
    if bits == 0 then a else 2 * ShiftLeft(a, bits - 1)
  }

  function Pow2(k: nat): nat {
    if k == 0 then 1 else 2 * Pow2(k - 1)
  }

  lemma {:induction false} ShiftIsProduct(a: int, bits: nat)
    ensures ShiftLeft(a, bits) == a * Pow2(bits)
  {
    if bits > 0 {
      ShiftIsProduct(a, bits - 1);
    }
  }

  lemma {:induction false} OrZero(a: int)
    ensures Or(a, 0) == a
    decreases Magnitude(a)
  {
    if a < -1 || 0 < a {
      OrZero(a / 2);
    }
  }

  /** After a shift the low bits are clear, so the OR adds. */
  lemma {:induction false} OrOfShift(a: int, bits: nat, low: nat)
    requires low < Pow2(bits)
    ensures Or(ShiftLeft(a, bits), low) == ShiftLeft(a, bits) + low
    decreases bits
  {
    if bits == 0 {
      OrZero(a);
    } else {
      OrOfShift(a, bits - 1, low / 2);
    }
  }

  /** The expression of the code, for a moment before or after the epoch. */
  lemma ShiftThenOr(millis: int, sequence: nat)
    requires sequence < PER_MILLISECOND
    ensures Or(ShiftLeft(millis, SEQUENCE_BITS), sequence) == millis * PER_MILLISECOND + sequence
  {
    assert Pow2(SEQUENCE_BITS) == PER_MILLISECOND;
    ShiftIsProduct(millis, SEQUENCE_BITS);
    OrOfShift(millis, SEQUENCE_BITS, sequence);
  }

  /** The id of the `draw`-th value of the sequence at a moment in milliseconds. */
  function Generated(draw: nat, millis: int): int {
    (millis - OUR_EPOCH) * PER_MILLISECOND + draw % PER_MILLISECOND
  }

  /** The database sequence starts at 1. */
  class ShortIdGenerator {
    var next: nat

    constructor ()
      ensures next == 1
    {
      next := 1;
    }

    method Generate(nowMillis: int) returns (id: int)
      modifies this
      ensures id == Generated(old(next), nowMillis)
      ensures id == (nowMillis - 1_672_531_200_000) * 1024 + old(next) % 1024
      ensures next == old(next) + 1
    {
      var seqId := next % PER_MILLISECOND;
      next := next + 1;
      ShiftThenOr(nowMillis - OUR_EPOCH, seqId);
      id := ShiftLeft(nowMillis - OUR_EPOCH, SEQUENCE_BITS);
      id := Or(id, seqId);
    }
  }

  /** The i-th id of a run, given the clock at each draw. */
  function IdAt(clock: seq<int>, i: nat): int
    requires i < |clock|
  {
    Generated(1 + i, clock[i])
  }

  lemma SameRemainder(m: nat, n: nat)
    requires m <= n
    ensures m % 1024 == n % 1024 <==> (n - m) % 1024 == 0
  {
  }

  lemma SameSum(a: int, r: nat, b: int, s: nat)
    requires r < 1024 && s < 1024
    ensures a * 1024 + r == b * 1024 + s <==> a == b && r == s
  {
  }

  /** Two draws give the same id exactly when they share a millisecond and are a multiple of 1024 apart. */
  lemma SameIdExactly(clock: seq<int>, i: nat, j: nat)
    requires i <= j < |clock|
    ensures IdAt(clock, i) == IdAt(clock, j) <==> clock[i] == clock[j] && (j - i) % PER_MILLISECOND == 0
  {
    SameRemainder(1 + i, 1 + j);
    SameSum(clock[i] - OUR_EPOCH, (1 + i) % 1024, clock[j] - OUR_EPOCH, (1 + j) % 1024);
  }

  ghost predicate NonDecreasing(clock: seq<int>) {
    forall i, j :: 0 <= i <= j < |clock| ==> clock[i] <= clock[j]
  }

  /** No millisecond sees more than 1024 draws. */
  ghost predicate WithinCapacity(clock: seq<int>) {
    forall i :: 0 <= i && i + PER_MILLISECOND < |clock| ==> clock[i] != clock[i + PER_MILLISECOND]
  }

  ghost predicate AllDistinct(clock: seq<int>) {
    forall i, j :: 0 <= i < j < |clock| ==> IdAt(clock, i) != IdAt(clock, j)
  }

  /** On a clock that never goes back, ids are unique exactly within capacity. */
  lemma UniqueExactly(clock: seq<int>)
    requires NonDecreasing(clock)
    ensures AllDistinct(clock) <==> WithinCapacity(clock)
  {
    if WithinCapacity(clock) {
      forall i, j | 0 <= i < j < |clock| ensures IdAt(clock, i) != IdAt(clock, j) {
        SameIdExactly(clock, i, j);
        if PER_MILLISECOND <= j - i {
          assert clock[i] <= clock[i + PER_MILLISECOND] <= clock[j];
        }
      }
    } else {
      var i :| 0 <= i && i + PER_MILLISECOND < |clock| && clock[i] == clock[i + PER_MILLISECOND];
      SameIdExactly(clock, i, i + PER_MILLISECOND);
    }
  }

  /** An id of a later millisecond is larger, and from the epoch on no id is negative. */
  lemma LaterIsLarger(clock: seq<int>, i: nat, j: nat)
    requires i < |clock| && j < |clock| && clock[i] < clock[j]
    ensures IdAt(clock, i) < IdAt(clock, j)
    ensures OUR_EPOCH <= clock[i] <==> 0 <= IdAt(clock, i)
  {
  }
}
