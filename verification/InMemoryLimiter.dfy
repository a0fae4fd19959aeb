/** The in-memory rate limiter of server/rapidly/core/rate_limit.py, with its periodic sweep. */
module InMemoryLimiter {
  import opened FixedWindow
  import opened Prelude

  datatype Entry = Entry(count: int, start: real)

  type Table = map<string, Entry>

  datatype Call = Call(key: string, limit: int, window: int, now: real)

  const CLEANUP_INTERVAL := 60.0
  const KEEP_SECONDS := 600

  predicate Stale(entry: Entry, window: int, now: real) {
    now - entry.start > Max(window, KEEP_SECONDS) as real
  }

  /** The entries a sweep keeps; the window is that of the call that happens to sweep. */
  function Kept(table: Table, window: int, now: real): Table {
    map k | k in table && !Stale(table[k], window, now) :: table[k]
  }

  /** A call opens a new window if the key has none that is still open. */
  predicate Opens(table: Table, c: Call) {
    c.key !in table || c.now - table[c.key].start >= c.window as real
  }

  function Counted(table: Table, c: Call): Table {
    if Opens(table, c) then table[c.key := Entry(1, c.now)]
    else table[c.key := Entry(table[c.key].count + 1, table[c.key].start)]
  }

  /** A call that opens a window is allowed whatever the limit. */
  predicate Allows(table: Table, c: Call) {
    Opens(table, c) || table[c.key].count + 1 <= c.limit
  }

  /** The two globals of the module. */
  datatype Memory = Memory(table: Table, lastCleanup: real)

  const START := Memory(map[], 0.0)

  function Swept(m: Memory, c: Call): Memory {
    if c.now - m.lastCleanup > CLEANUP_INTERVAL then Memory(Kept(m.table, c.window, c.now), c.now) else m
  }

  class Limiter {
    var table: Table
    var lastCleanup: real

    constructor ()
      ensures Contents() == START
    {
      table, lastCleanup := map[], 0.0;
    }

    function Contents(): Memory
      reads this
    {
      Memory(table, lastCleanup)
    }

    method Sweep(window: int, now: real)
      modifies this`table
      ensures table == Kept(old(table), window, now)
      ensures forall k :: k in table <==>
                            && k in old(table)
                            && (now - old(table)[k].start <= window as real || now - old(table)[k].start <= 600.0)
      ensures forall k :: k in table ==> table[k] == old(table)[k]
    {
      var expired := set k | k in table && Stale(table[k], window, now);
      var left := expired;
      while left != {}
        invariant left <= expired
        invariant table == old(table) - (expired - left)
      {
        var k :| k in left;
        table := table - {k};
        left := left - {k};
      }
    }

    method Check(key: string, limit: int, window: int, now: real) returns (allowed: bool)
      modifies this
      ensures var c := Call(key, limit, window, now);
              var before := Swept(old(Contents()), c);
              && allowed == Allows(before.table, c)
              && Contents() == Memory(Counted(before.table, c), before.lastCleanup)
      ensures lastCleanup == if now - old(lastCleanup) > 60.0 then now else old(lastCleanup)
      ensures forall k :: k in table && k != key ==> k in old(table) && table[k] == old(table)[k]
      ensures forall k :: k in old(table) && k !in table ==>
                            && now - old(lastCleanup) > 60.0
                            && now - old(table)[k].start > window as real && now - old(table)[k].start > 600.0
      ensures key in table
    {
      if now - lastCleanup > CLEANUP_INTERVAL {
        Sweep(window, now);
        lastCleanup := now;
      }
      if key !in table || now - table[key].start >= window as real {
        table := table[key := Entry(1, now)];
        return true;
      }
      var count, windowStart := table[key].count, table[key].start;
      var newCount := count + 1;
      table := table[key := Entry(newCount, windowStart)];
      return newCount <= limit;
    }
  }

  // ----- whole runs ---------------------------------------------------------------------

  function After(cs: seq<Call>): Memory {
    if cs == [] then START
    else
      var c := cs[|cs| - 1];
      var before := Swept(After(cs[..|cs| - 1]), c);
      Memory(Counted(before.table, c), before.lastCleanup)
  }

  /** The same limiter without the sweep. */
  function AfterPlain(cs: seq<Call>): Table {
    if cs == [] then map[] else Counted(AfterPlain(cs[..|cs| - 1]), cs[|cs| - 1])
  }

  predicate Decision(cs: seq<Call>, i: nat)
    requires i < |cs|
  {
    Allows(Swept(After(cs[..i]), cs[i]).table, cs[i])
  }

  predicate PlainDecision(cs: seq<Call>, i: nat)
    requires i < |cs|
  {
    Allows(AfterPlain(cs[..i]), cs[i])
  }

  ghost predicate Monotone(cs: seq<Call>) {
    forall i, j :: 0 <= i <= j < |cs| ==> cs[i].now <= cs[j].now
  }

  /** The calls of a key all have this window. */
  ghost predicate KeepsWindow(cs: seq<Call>, key: string, window: int) {
    forall i :: 0 <= i < |cs| && cs[i].key == key ==> cs[i].window == window
  }

  /** The window is no longer than what a sweep, on behalf of any call, is sure to keep. */
  ghost predicate Covered(cs: seq<Call>, window: int) {
    forall j :: 0 <= j < |cs| ==> window <= Max(cs[j].window, KEEP_SECONDS)
  }

  /** The tables agree on a key, unless a sweep removed it: then its window is over by `now`. */
  predicate Agree(table: Table, plain: Table, key: string, window: int, now: real) {
    && (key in table ==> key in plain && table[key] == plain[key])
    && (key in plain && key !in table ==> now - plain[key].start >= window as real)
  }

  lemma SweepAgrees(m: Memory, plain: Table, key: string, window: int, now: real, c: Call)
    requires Agree(m.table, plain, key, window, now) && now <= c.now
    requires window <= Max(c.window, KEEP_SECONDS)
    ensures Agree(Swept(m, c).table, plain, key, window, c.now)
  {
  }

  /** A call of the key is decided alike; any call leaves tables that agree on the key. */
  lemma CountAgrees(table: Table, plain: Table, key: string, window: int, c: Call)
    requires Agree(table, plain, key, window, c.now) && (c.key == key ==> c.window == window)
    ensures c.key == key ==> Allows(table, c) == Allows(plain, c)
    ensures Agree(Counted(table, c), Counted(plain, c), key, window, c.now)
  {
  }

  lemma {:induction false} TablesAgree(cs: seq<Call>, key: string, window: int)
    requires Monotone(cs) && KeepsWindow(cs, key, window) && Covered(cs, window)
    ensures cs != [] ==> Agree(After(cs).table, AfterPlain(cs), key, window, cs[|cs| - 1].now)
  {
    if cs != [] {
      var n := |cs| - 1;
      var past := cs[..n];
      assert forall i :: 0 <= i < n ==> past[i] == cs[i];
      TablesAgree(past, key, window);
      NextAgrees(past, cs[n], key, window);
    }
  }

  /** The next call sweeps, perhaps, and then counts. */
  lemma NextAgrees(past: seq<Call>, c: Call, key: string, window: int)
    requires past != [] ==> past[|past| - 1].now <= c.now
    requires past != [] ==> Agree(After(past).table, AfterPlain(past), key, window, past[|past| - 1].now)
    requires window <= Max(c.window, KEEP_SECONDS) && (c.key == key ==> c.window == window)
    ensures var before := Swept(After(past), c).table;
            && Agree(Counted(before, c), Counted(AfterPlain(past), c), key, window, c.now)
            && (c.key == key ==> Allows(before, c) == Allows(AfterPlain(past), c))
  {
    if past != [] {
      SweepAgrees(After(past), AfterPlain(past), key, window, past[|past| - 1].now, c);
    }
    CountAgrees(Swept(After(past), c).table, AfterPlain(past), key, window, c);
  }

  /**
   The sweep is invisible to a key that keeps a window no sweep cuts short: its calls are decided
   as without the sweep, whatever the windows of other keys.
   */
  lemma SweepInvisible(cs: seq<Call>, i: nat, window: int)
    requires Monotone(cs) && i < |cs| && KeepsWindow(cs, cs[i].key, window) && Covered(cs, window)
    ensures Decision(cs, i) == PlainDecision(cs, i)
  {
    var past := cs[..i];
    assert forall j :: 0 <= j < i ==> past[j] == cs[j];
    TablesAgree(past, cs[i].key, window);
    NextAgrees(past, cs[i], cs[i].key, window);
  }

  /** Covered is needed: a window longer than another call's sweep keeps is forgotten. */
  lemma SweepVisible(long: int, short: int) returns (cs: seq<Call>)
    requires long > Max(short, KEEP_SECONDS)
    ensures Monotone(cs) && |cs| == 3
    ensures forall i :: 0 <= i < 3 ==> cs[i].limit == 1 && KeepsWindow(cs, cs[i].key, cs[i].window)
    ensures cs[1].window == short && cs[2].window == long
    ensures Decision(cs, 2) && !PlainDecision(cs, 2)
  {
    var t := (Max(short, KEEP_SECONDS) as real + long as real) / 2.0;
    var a, b, c := Call("a", 1, long, 0.0), Call("b", 1, short, t), Call("a", 1, long, t);
    cs := [a, b, c];
    assert cs[..2] == [a, b] && cs[..2][..1] == [a] && cs[..1] == [a] && [a][..0] == [];
    assert Swept(After([]), a) == START;
    assert After([a]) == Memory(map["a" := Entry(1, 0.0)], 0.0);
    assert Swept(After([a]), b) == Memory(map[], t);
    assert After(cs[..2]) == Memory(map["b" := Entry(1, t)], t);
    assert AfterPlain([a]) == map["a" := Entry(1, 0.0)];
    assert AfterPlain(cs[..2]) == map["a" := Entry(1, 0.0), "b" := Entry(1, t)];
  }

  // ----- windows ------------------------------------------------------------------------

  /** When the calls of one key were made. */
  function Times(cs: seq<Call>, key: string): seq<real> {
    if cs == [] then []
    else
      var c := cs[|cs| - 1];
      Times(cs[..|cs| - 1], key) + if c.key == key then [c.now] else []
  }

  ghost predicate Uses(cs: seq<Call>, key: string, limit: int, window: int) {
    forall i :: 0 <= i < |cs| && cs[i].key == key ==> cs[i].limit == limit && cs[i].window == window
  }

  lemma {:induction false} OpenerPrefix(times: seq<real>, window: real, n: nat, i: nat)
    requires i < n <= |times|
    ensures Opener(times[..n], window, i) == Opener(times, window, i)
  {
    if i > 0 {
      OpenerPrefix(times, window, n, i - 1);
    }
  }

  /** What the entry of a key should be after calls at these times. */
  predicate HoldsWindow(table: Table, key: string, times: seq<real>, window: real) {
    if times == [] then key !in table
    else
      var last := |times| - 1;
      && key in table
      && table[key] == Entry(Rank(times, window, last), times[Opener(times, window, last)])
  }

  /** The entry of a key is the rank of its last call and the time its window opened. */
  lemma {:induction false} EntryIsWindow(cs: seq<Call>, key: string, limit: int, window: int)
    requires Uses(cs, key, limit, window)
    ensures HoldsWindow(AfterPlain(cs), key, Times(cs, key), window as real)
  {
    if cs != [] {
      var n := |cs| - 1;
      assert forall i :: 0 <= i < n ==> cs[..n][i] == cs[i];
      EntryIsWindow(cs[..n], key, limit, window);
      CountsWindow(AfterPlain(cs[..n]), cs[n], key, Times(cs[..n], key), window);
      assert Times(cs[..n], key) + [] == Times(cs[..n], key);
    }
  }

  lemma CountsWindow(table: Table, c: Call, key: string, times: seq<real>, window: int)
    requires HoldsWindow(table, key, times, window as real) && (c.key == key ==> c.window == window)
    ensures HoldsWindow(Counted(table, c), key, if c.key == key then times + [c.now] else times, window as real)
  {
    if c.key == key {
      NextOpener(times, c.now, window as real);
      if times != [] {
        var s := Opener(times, window as real, |times| - 1);
        assert (times + [c.now])[s] == times[s];
      }
    }
  }

  lemma NextOpener(times: seq<real>, now: real, window: real)
    ensures var longer := times + [now];
            var n := |times|;
            if n == 0 then Opener(longer, window, 0) == 0
            else
              var s := Opener(times, window, n - 1);
              && Opener(longer, window, n) == (if now - times[s] >= window then n else s)
  {
    var longer := times + [now];
    var n := |times|;
    if n > 0 {
      assert longer[..n] == times;
      OpenerPrefix(longer, window, n, n - 1);
    }
  }

  /** A call that opens a window is allowed in any case, so a limit below one acts as one. */
  function Effective(limit: int): nat {
    Max(limit, 1)
  }

  /** Without the sweep a call is allowed exactly when its rank in its window is within the limit. */
  lemma PlainDecisionIsRank(cs: seq<Call>, i: nat, limit: int, window: int)
    requires i < |cs| && Uses(cs, cs[i].key, limit, window)
    ensures var times := Times(cs[..i + 1], cs[i].key);
            && times != []
            && PlainDecision(cs, i) == Admitted(times, window as real, Effective(limit), |times| - 1)
  {
    var key := cs[i].key;
    var past := cs[..i];
    assert cs[..i + 1][..i] == past && cs[..i + 1][i] == cs[i];
    assert forall j :: 0 <= j < i ==> past[j] == cs[j];
    EntryIsWindow(past, key, limit, window);
    NextOpener(Times(past, key), cs[i].now, window as real);
  }

  lemma {:induction false} TimesPrefix(cs: seq<Call>, key: string, n: nat)
    requires n <= |cs|
    ensures |Times(cs[..n], key)| <= |Times(cs, key)|
    ensures Times(cs, key)[..|Times(cs[..n], key)|] == Times(cs[..n], key)
    decreases |cs|
  {
    if n == |cs| {
      assert cs[..n] == cs;
    } else {
      var shorter := cs[..|cs| - 1];
      TimesPrefix(shorter, key, n);
      assert shorter[..n] == cs[..n];
    }
  }

  lemma {:induction false} TimesIncrease(cs: seq<Call>, key: string)
    requires Monotone(cs)
    ensures Increasing(Times(cs, key))
    ensures Times(cs, key) != [] ==> Times(cs, key)[|Times(cs, key)| - 1] <= cs[|cs| - 1].now
  {
    if cs != [] {
      TimesIncrease(cs[..|cs| - 1], key);
    }
  }

  /** The number of the i-th call among those of its key. */
  function Position(cs: seq<Call>, i: nat): nat
    requires i < |cs|
  {
    |Times(cs[..i], cs[i].key)|
  }

  lemma PositionTime(cs: seq<Call>, i: nat)
    requires i < |cs|
    ensures Position(cs, i) < |Times(cs, cs[i].key)|
    ensures Times(cs, cs[i].key)[Position(cs, i)] == cs[i].now
    ensures |Times(cs[..i + 1], cs[i].key)| == Position(cs, i) + 1
    ensures Times(cs, cs[i].key)[..Position(cs, i) + 1] == Times(cs[..i + 1], cs[i].key)
  {
    TimesPrefix(cs, cs[i].key, i + 1);
    assert cs[..i + 1][..i] == cs[..i];
    var times := Times(cs, cs[i].key);
    assert times[Position(cs, i)] == times[..Position(cs, i) + 1][Position(cs, i)];
  }

  /** With a window no sweep cuts short, the decisions of the real limiter are those of the windows of the key's own calls. */
  lemma DecisionIsRank(cs: seq<Call>, i: nat, limit: int, window: int)
    requires Monotone(cs) && Covered(cs, window)
    requires i < |cs| && Uses(cs, cs[i].key, limit, window)
    ensures Position(cs, i) < |Times(cs, cs[i].key)|
    ensures Decision(cs, i) == Admitted(Times(cs, cs[i].key), window as real, Effective(limit), Position(cs, i))
  {
    SweepInvisible(cs, i, window);
    PlainDecisionIsRank(cs, i, limit, window);
    PositionTime(cs, i);
    OpenerPrefix(Times(cs, cs[i].key), window as real, Position(cs, i) + 1, Position(cs, i));
  }

  /** The calls of a key that are allowed from `start` on, within one window length. */
  ghost function AllowedIn(cs: seq<Call>, key: string, start: real, window: int): set<nat> {
    set i: nat | i < |cs| && cs[i].key == key && start <= cs[i].now < start + window as real && Decision(cs, i)
  }

  lemma PositionsDiffer(cs: seq<Call>, i: nat, j: nat)
    requires i < j < |cs| && cs[i].key == cs[j].key
    ensures Position(cs, i) < Position(cs, j)
  {
    PositionTime(cs, i);
    TimesPrefix(cs[..j], cs[i].key, i + 1);
    assert cs[..j][..i + 1] == cs[..i + 1];
  }

  /**
   In the real limiter no interval one window long sees more than twice the limit allowed to a
   key whose window no sweep cuts short, whatever other keys do.
   */
  lemma LimiterBound(cs: seq<Call>, key: string, limit: int, window: int, start: real)
    requires Monotone(cs) && Covered(cs, window)
    requires 0 < window && Uses(cs, key, limit, window)
    ensures |AllowedIn(cs, key, start, window)| <= 2 * Effective(limit)
  {
    var all := AllowedIn(cs, key, start, window);
    var times := Times(cs, key);
    TimesIncrease(cs, key);
    IntervalAdmits(times, window as real, Effective(limit), start);
    forall i | i in all
      ensures Position(cs, i) in AdmittedIn(times, window as real, Effective(limit), start)
    {
      DecisionIsRank(cs, i, limit, window);
      PositionTime(cs, i);
    }
    PositionsInjective(cs, key, all, AdmittedIn(times, window as real, Effective(limit), start));
  }

  lemma {:induction false} PositionsInjective(cs: seq<Call>, key: string, indices: set<nat>, positions: set<nat>)
    requires forall i :: i in indices ==> i < |cs| && cs[i].key == key && Position(cs, i) in positions
    ensures |indices| <= |positions|
    decreases |indices|
  {
    if indices != {} {
      var i :| i in indices;
      var rest := indices - {i};
      forall j | j in rest ensures Position(cs, j) in positions - {Position(cs, i)} {
        if i < j {
          PositionsDiffer(cs, i, j);
        } else {
          PositionsDiffer(cs, j, i);
        }
      }
      PositionsInjective(cs, key, rest, positions - {Position(cs, i)});
    }
  }
}
