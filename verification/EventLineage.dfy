/**
 The closure table and the root pointer against the parent chain they speed up, over every
 history of inserts and deletes.
 */
module EventLineage {
  import opened Prelude
  import opened EventTables

  datatype Op = Insert(id: EventId, parent: Option<EventId>, root: Option<EventId>) | Delete(id: EventId)

  predicate Succeeds(db: Db, op: Op) {
    op.Insert? ==> Inserted(db, op.id, op.parent, op.root).Ok?
  }

  function Apply(db: Db, op: Op): Db {
    match op
    case Insert(id, parent, root) =>
      var r := Inserted(db, id, parent, root);
      if r.Ok? then r.value else db
    case Delete(id) => Deleted(db, id)
  }

  function After(ops: seq<Op>): Db {
    if ops == [] then EMPTY else Apply(After(ops[..|ops| - 1]), ops[|ops| - 1])
  }

  /** Who was the parent of whom when it was inserted; deletes forget nothing. */
  type Lineage = map<EventId, Option<EventId>>

  function LineageOf(ops: seq<Op>): Lineage {
    if ops == [] then map[]
    else
      var past, op := ops[..|ops| - 1], ops[|ops| - 1];
      if op.Insert? && Succeeds(After(past), op) then LineageOf(past)[op.id := op.parent] else LineageOf(past)
  }

  /** No event is inserted under an id that was ever in use. */
  predicate IdsFresh(ops: seq<Op>) {
    ops == [] ||
    var past, op := ops[..|ops| - 1], ops[|ops| - 1];
    IdsFresh(past) && (op.Insert? ==> op.id !in LineageOf(past))
  }

  /** The event `k` parent steps above `d`. */
  function Reach(lineage: Lineage, d: EventId, k: nat): Option<EventId>
    decreases k
  {
    if d !in lineage then None
    else if k == 0 then Some(d)
    else if lineage[d].None? then None
    else Reach(lineage, lineage[d].value, k - 1)
  }

  /** `rank` orders the events so that every parent comes before its children. */
  ghost predicate Ranked(lineage: Lineage, rank: map<EventId, nat>) {
    && rank.Keys == lineage.Keys
    && forall e {:trigger lineage[e]} :: e in lineage && lineage[e].Some? ==> lineage[e].value in lineage && rank[lineage[e].value] < rank[e]
  }

  lemma {:induction false} LineageRanked(ops: seq<Op>) returns (rank: map<EventId, nat>)
    requires IdsFresh(ops)
    ensures Ranked(LineageOf(ops), rank)
    ensures forall e :: e in rank ==> rank[e] < |ops|
    ensures forall e :: e in After(ops).events ==> e in LineageOf(ops)
  {
    if ops == [] {
      rank := map[];
    } else {
      var n := |ops| - 1;
      var past, op := ops[..n], ops[n];
      rank := LineageRanked(past);
      if op.Insert? && Succeeds(After(past), op) {
        ParentIsAlive(After(past), op.id, op.parent, op.root);
        rank := rank[op.id := n];
      }
    }
  }

  /** A successful insert has an existing parent other than itself. */
  lemma ParentIsAlive(db: Db, id: EventId, parent: Option<EventId>, root: Option<EventId>)
    requires Inserted(db, id, parent, root).Ok?
    ensures parent.Some? ==> parent.value in db.events && parent.value != id
  {
    if parent == Some(id) {
      var own := ClosureRow(id, id, 0);
      var again := ClosureRow(id, id, 1);
      var closure := db.closure + {own};
      assert again in Propagated(closure, id, id);
      assert own in closure && SameKey(own, again);
      assert Conflicts(closure, Propagated(closure, id, id));
      assert false;
    }
  }

  lemma {:induction false} ReachRank(lineage: Lineage, rank: map<EventId, nat>, d: EventId, k: nat)
    requires Ranked(lineage, rank) && Reach(lineage, d, k).Some?
    ensures var a := Reach(lineage, d, k).value;
            a in lineage && d in lineage && rank[a] + k <= rank[d]
    decreases k
  {
    if k > 0 {
      ReachRank(lineage, rank, lineage[d].value, k - 1);
    }
  }

  lemma {:induction false} ReachAdd(lineage: Lineage, d: EventId, j: nat, k: nat)
    requires Reach(lineage, d, j).Some?
    ensures Reach(lineage, d, j + k) == Reach(lineage, Reach(lineage, d, j).value, k)
    decreases j
  {
    if j > 0 {
      ReachAdd(lineage, lineage[d].value, j - 1, k);
    }
  }

  /** An ancestor is reached by only one number of steps. */
  lemma ReachOnce(lineage: Lineage, rank: map<EventId, nat>, d: EventId, j: nat, k: nat)
    requires Ranked(lineage, rank)
    requires Reach(lineage, d, j).Some? && Reach(lineage, d, j) == Reach(lineage, d, k)
    ensures j == k
  {
    var lo, hi := if j < k then j else k, if j < k then k else j;
    var a := Reach(lineage, d, lo).value;
    ReachAdd(lineage, d, lo, hi - lo);
    ReachRank(lineage, rank, a, hi - lo);
  }

  /** A new event does not change the ancestors of the others. */
  lemma {:induction false} ReachKept(lineage: Lineage, rank: map<EventId, nat>, id: EventId, parent: Option<EventId>, d: EventId, k: nat)
    requires Ranked(lineage, rank) && id !in lineage && d in lineage
    ensures Reach(lineage[id := parent], d, k) == Reach(lineage, d, k)
    decreases k
  {
    if k > 0 && lineage[d].Some? {
      ReachKept(lineage, rank, id, parent, lineage[d].value, k - 1);
    }
  }

  /** The rows the closure table should have. */
  predicate Expected(db: Db, lineage: Lineage, row: ClosureRow) {
    && row.ancestor in db.events && row.descendant in db.events
    && 0 <= row.depth && Reach(lineage, row.descendant, row.depth) == Some(row.ancestor)
  }

  ghost predicate Agrees(db: Db, lineage: Lineage) {
    forall row :: row in db.closure <==> Expected(db, lineage, row)
  }

  lemma InsertAgrees(db: Db, lineage: Lineage, rank: map<EventId, nat>, id: EventId, parent: Option<EventId>, root: Option<EventId>)
    requires Agrees(db, lineage) && Ranked(lineage, rank) && db.events.Keys <= lineage.Keys && id !in lineage
    requires Inserted(db, id, parent, root).Ok?
    ensures Agrees(Inserted(db, id, parent, root).value, lineage[id := parent])
  {
    var after := Inserted(db, id, parent, root).value;
    var longer := lineage[id := parent];
    forall row ensures row in after.closure <==> Expected(after, longer, row) {
      if row.descendant == id {
        NewRowsAgree(db, lineage, rank, id, parent, root, row);
      } else {
        OtherRowsAgree(db, lineage, rank, id, parent, root, row);
      }
    }
  }

  /** Rows of other descendants are untouched. */
  lemma OtherRowsAgree(db: Db, lineage: Lineage, rank: map<EventId, nat>, id: EventId, parent: Option<EventId>, root: Option<EventId>, row: ClosureRow)
    requires Agrees(db, lineage) && Ranked(lineage, rank) && db.events.Keys <= lineage.Keys && id !in lineage
    requires Inserted(db, id, parent, root).Ok? && row.descendant != id
    ensures row in Inserted(db, id, parent, root).value.closure <==>
            Expected(Inserted(db, id, parent, root).value, lineage[id := parent], row)
  {
    var after := Inserted(db, id, parent, root).value;
    assert after.events.Keys == db.events.Keys + {id};
    assert row in after.closure <==> row in db.closure;
    if row.descendant in lineage && 0 <= row.depth {
      ReachKept(lineage, rank, id, parent, row.descendant, row.depth);
      if Reach(lineage, row.descendant, row.depth).Some? {
        ReachRank(lineage, rank, row.descendant, row.depth);
      }
    }
    assert row in db.closure <==> Expected(db, lineage, row);
  }

  lemma NewRows(db: Db, id: EventId, parent: Option<EventId>, root: Option<EventId>, row: ClosureRow)
    requires Inserted(db, id, parent, root).Ok? && row.descendant == id
    requires forall r :: r in db.closure ==> r.descendant != id
    ensures row in Inserted(db, id, parent, root).value.closure <==>
            || row == ClosureRow(id, id, 0)
            || (parent.Some? && ClosureRow(row.ancestor, parent.value, row.depth - 1) in db.closure)
  {
    ParentIsAlive(db, id, parent, root);
    var own := ClosureRow(id, id, 0);
    if parent.Some? {
      var above := ClosureRow(row.ancestor, parent.value, row.depth - 1);
      assert row in Propagated(db.closure + {own}, id, parent.value) <==> above in db.closure;
    }
  }

  /** What is expected of the new event: itself, and its parent's ancestors, one deeper. */
  lemma NewExpected(db: Db, lineage: Lineage, rank: map<EventId, nat>, id: EventId, parent: Option<EventId>, root: Option<EventId>, row: ClosureRow)
    requires Ranked(lineage, rank) && db.events.Keys <= lineage.Keys && id !in lineage
    requires Inserted(db, id, parent, root).Ok? && row.descendant == id
    ensures Expected(Inserted(db, id, parent, root).value, lineage[id := parent], row) <==>
            || row == ClosureRow(id, id, 0)
            || (parent.Some? && Expected(db, lineage, ClosureRow(row.ancestor, parent.value, row.depth - 1)))
  {
    ParentIsAlive(db, id, parent, root);
    assert Inserted(db, id, parent, root).value.events.Keys == db.events.Keys + {id};
    if 0 < row.depth {
      ReachOfNew(lineage, rank, id, parent, row.depth);
    }
  }

  /** The ancestors of a new event are those of its parent, and never the event itself. */
  lemma ReachOfNew(lineage: Lineage, rank: map<EventId, nat>, id: EventId, parent: Option<EventId>, k: nat)
    requires Ranked(lineage, rank) && id !in lineage && 0 < k && (parent.Some? ==> parent.value in lineage)
    ensures var a := Reach(lineage[id := parent], id, k);
            && a == (if parent.None? then None else Reach(lineage, parent.value, k - 1))
            && a != Some(id)
  {
    if parent.Some? {
      ReachKept(lineage, rank, id, parent, parent.value, k - 1);
      if Reach(lineage, parent.value, k - 1).Some? {
        ReachRank(lineage, rank, parent.value, k - 1);
      }
    }
  }

  /** The new event's rows are its own and its parent's, one deeper. */
  lemma NewRowsAgree(db: Db, lineage: Lineage, rank: map<EventId, nat>, id: EventId, parent: Option<EventId>, root: Option<EventId>, row: ClosureRow)
    requires Agrees(db, lineage) && Ranked(lineage, rank) && db.events.Keys <= lineage.Keys && id !in lineage
    requires Inserted(db, id, parent, root).Ok? && row.descendant == id
    ensures row in Inserted(db, id, parent, root).value.closure <==>
            Expected(Inserted(db, id, parent, root).value, lineage[id := parent], row)
  {
    assert forall r :: r in db.closure ==> Expected(db, lineage, r);
    NewRows(db, id, parent, root, row);
    NewExpected(db, lineage, rank, id, parent, root, row);
    if parent.Some? {
      var above := ClosureRow(row.ancestor, parent.value, row.depth - 1);
      assert above in db.closure <==> Expected(db, lineage, above);
    }
  }

  /**
   After any history the closure rows are exactly the pairs of surviving events of which the
   first is reached from the second by `depth` parent steps, deleted events included.
   */
  lemma {:induction false} ClosureIsLineage(ops: seq<Op>)
    requires IdsFresh(ops)
    ensures Agrees(After(ops), LineageOf(ops))
  {
    if ops != [] {
      var n := |ops| - 1;
      var past, op := ops[..n], ops[n];
      ClosureIsLineage(past);
      var rank := LineageRanked(past);
      if op.Insert? && Succeeds(After(past), op) {
        InsertAgrees(After(past), LineageOf(past), rank, op.id, op.parent, op.root);
      } else if op.Delete? {
        var db, lineage := After(past), LineageOf(past);
        forall row ensures row in Deleted(db, op.id).closure <==> Expected(Deleted(db, op.id), lineage, row) {
          assert row in db.closure <==> Expected(db, lineage, row);
        }
      }
    }
  }

  /** One row per pair, one row of depth 0 per event, and no cycles. */
  lemma ClosureIsWellFormed(ops: seq<Op>, r: ClosureRow, s: ClosureRow)
    requires IdsFresh(ops) && r in After(ops).closure && s in After(ops).closure
    ensures SameKey(r, s) ==> r == s
    ensures r.depth == 0 <==> r.ancestor == r.descendant
    ensures r.ancestor == s.descendant && r.descendant == s.ancestor ==> r == s && r.depth == 0
    ensures ClosureRow(r.descendant, r.descendant, 0) in After(ops).closure
  {
    var lineage := LineageOf(ops);
    var rank := LineageRanked(ops);
    ClosureIsLineage(ops);
    assert Expected(After(ops), lineage, r) && Expected(After(ops), lineage, s);
    assert Expected(After(ops), lineage, ClosureRow(r.descendant, r.descendant, 0));
    ReachRank(lineage, rank, r.descendant, r.depth);
    ReachRank(lineage, rank, s.descendant, s.depth);
    if SameKey(r, s) {
      ReachOnce(lineage, rank, r.descendant, r.depth, s.depth);
    }
  }

  lemma NoConflict(closure: set<ClosureRow>, id: EventId, parent: EventId)
    requires forall r, s :: r in closure && s in closure && SameKey(r, s) ==> r == s
    requires forall r :: r in closure ==> r.descendant != id && r.ancestor != id
    requires parent != id
    ensures var own := {ClosureRow(id, id, 0)};
            !Conflicts(closure + own, Propagated(closure + own, id, parent))
  {
    var all := closure + {ClosureRow(id, id, 0)};
    var added := Propagated(all, id, parent);
    forall r, s | r in added && s in added && SameKey(r, s)
      ensures r == s
    {
      var p, q := ClosureRow(r.ancestor, parent, r.depth - 1), ClosureRow(s.ancestor, parent, s.depth - 1);
      assert p in closure && q in closure && SameKey(p, q);
    }
    forall r, s | r in all && s in added
      ensures !SameKey(r, s)
    {
      assert ClosureRow(s.ancestor, parent, s.depth - 1) in closure;
    }
  }

  /** The hook's inserts never clash with a primary key when the event is new and its parent is another. */
  lemma HookNeverConflicts(ops: seq<Op>, id: EventId, parent: Option<EventId>)
    requires IdsFresh(ops) && id !in LineageOf(ops) && parent != Some(id)
    ensures var closure, own := After(ops).closure, {ClosureRow(id, id, 0)};
            && !Conflicts(closure, own)
            && (parent.Some? ==> !Conflicts(closure + own, Propagated(closure + own, id, parent.value)))
  {
    var closure := After(ops).closure;
    ClosureIsLineage(ops);
    var rank := LineageRanked(ops);
    forall r | r in closure ensures r.descendant != id && r.ancestor != id {
      assert Expected(After(ops), LineageOf(ops), r);
    }
    if parent.Some? {
      forall r, s | r in closure && s in closure && SameKey(r, s) ensures r == s {
        ClosureIsWellFormed(ops, r, s);
      }
      NoConflict(closure, id, parent.value);
    }
  }

  /** An insert under a fresh id fails exactly when a reference is missing or the event is its own parent. */
  lemma InsertSucceedsExactly(ops: seq<Op>, id: EventId, parent: Option<EventId>, root: Option<EventId>)
    requires IdsFresh(ops) && id !in LineageOf(ops)
    ensures Inserted(After(ops), id, parent, root).Ok? <==>
            && (parent.Some? ==> parent.value in After(ops).events)
            && (root.Some? ==> root.value == id || root.value in After(ops).events)
  {
    var db := After(ops);
    var rank := LineageRanked(ops);
    assert id !in db.events;
    if Inserted(db, id, parent, root).Ok? {
      ParentIsAlive(db, id, parent, root);
    } else if parent != Some(id) {
      HookNeverConflicts(ops, id, parent);
      assert Conflicts(db.closure + {ClosureRow(id, id, 0)}, {}) == false;
    }
  }

  // ----- the root pointer ---------------------------------------------------------------

  /** A root given by the caller stays; otherwise an event without parent is its own root. */
  lemma GivenRootStays(db: Db, id: EventId, parent: Option<EventId>, root: Option<EventId>)
    requires Inserted(db, id, parent, root).Ok?
    ensures var row := Inserted(db, id, parent, root).value.events[id];
            && row.parent == parent
            && (root.Some? ==> row.root == root)
            && (root.None? && parent.None? ==> row.root == Some(id))
            && (root.None? && parent.Some? ==>
                  && parent.value in db.events
                  && row.root == (if db.events[parent.value].root.Some? then db.events[parent.value].root else parent))
    ensures forall e :: e in db.events ==> Inserted(db, id, parent, root).value.events[e] == db.events[e]
  {
    ParentIsAlive(db, id, parent, root);
  }

  predicate RootsUnset(ops: seq<Op>) {
    forall i :: 0 <= i < |ops| && ops[i].Insert? ==> ops[i].root.None?
  }

  /** `a`, which has no parent, is the top of `e`'s chain, `k` steps up. */
  predicate TopAt(lineage: Lineage, e: EventId, a: EventId, k: nat) {
    Reach(lineage, e, k) == Some(a) && a in lineage && lineage[a].None?
  }

  lemma {:induction false} TopExists(lineage: Lineage, rank: map<EventId, nat>, e: EventId) returns (a: EventId, k: nat)
    requires Ranked(lineage, rank) && e in lineage
    ensures TopAt(lineage, e, a, k)
    decreases rank[e]
  {
    if lineage[e].None? {
      a, k := e, 0;
    } else {
      a, k := TopExists(lineage, rank, lineage[e].value);
      k := k + 1;
    }
  }

  /** Nothing lies above the top, so it is unique and of greatest depth. */
  lemma TopIsHighest(lineage: Lineage, e: EventId, a: EventId, k: nat, j: nat)
    requires TopAt(lineage, e, a, k) && Reach(lineage, e, j).Some?
    ensures j <= k
  {
    if k < j {
      ReachAdd(lineage, e, k, j - k);
    }
  }

  lemma TopUnique(lineage: Lineage, e: EventId, a: EventId, j: nat, b: EventId, k: nat)
    requires TopAt(lineage, e, a, j) && TopAt(lineage, e, b, k)
    ensures a == b && j == k
  {
    TopIsHighest(lineage, e, a, j, k);
    TopIsHighest(lineage, e, b, k, j);
  }

  /** A root pointer names a surviving ancestor, and the top of the chain exactly when that survives. */
  ghost predicate RootsRight(db: Db, lineage: Lineage) {
    && (forall e, a, k: nat :: e in db.events && TopAt(lineage, e, a, k) ==> (db.events[e].root == Some(a) <==> a in db.events))
    && (forall e :: e in db.events && db.events[e].root.Some? ==>
                      && db.events[e].root.value in db.events
                      && exists k: nat :: Reach(lineage, e, k) == db.events[e].root)
  }

  lemma {:induction false} RootIsTopWhileItSurvives(ops: seq<Op>)
    requires IdsFresh(ops) && RootsUnset(ops)
    ensures RootsRight(After(ops), LineageOf(ops))
  {
    if ops != [] {
      var n := |ops| - 1;
      var past, op := ops[..n], ops[n];
      RootIsTopWhileItSurvives(past);
      var rank := LineageRanked(past);
      if op.Insert? && Succeeds(After(past), op) {
        InsertKeepsRoots(After(past), LineageOf(past), rank, op.id, op.parent);
      }
    }
  }

  /** The tops of the older events, after an insert. */
  lemma OlderTops(db: Db, lineage: Lineage, rank: map<EventId, nat>, id: EventId, parent: Option<EventId>, e: EventId, a: EventId, k: nat)
    requires RootsRight(db, lineage) && Ranked(lineage, rank) && db.events.Keys <= lineage.Keys && id !in lineage
    requires Inserted(db, id, parent, None).Ok?
    requires e in db.events && TopAt(lineage[id := parent], e, a, k)
    ensures var after := Inserted(db, id, parent, None).value;
            after.events[e].root == Some(a) <==> a in after.events
  {
    ReachKept(lineage, rank, id, parent, e, k);
    ReachRank(lineage, rank, e, k);
    assert TopAt(lineage, e, a, k);
  }

  /** The top of the new event. */
  lemma NewTop(db: Db, lineage: Lineage, rank: map<EventId, nat>, id: EventId, parent: Option<EventId>, a: EventId, k: nat)
    requires RootsRight(db, lineage) && Ranked(lineage, rank) && db.events.Keys <= lineage.Keys && id !in lineage
    requires Inserted(db, id, parent, None).Ok?
    requires TopAt(lineage[id := parent], id, a, k)
    ensures var after := Inserted(db, id, parent, None).value;
            after.events[id].root == Some(a) <==> a in after.events
  {
    ParentIsAlive(db, id, parent, None);
    if parent.Some? {
      var p := parent.value;
      assert k > 0;
      ReachKept(lineage, rank, id, parent, p, k - 1);
      ReachRank(lineage, rank, p, k - 1);
      assert TopAt(lineage, p, a, k - 1);
      assert p == a ==> k - 1 == 0 by {
        if p == a {
          ReachOnce(lineage, rank, p, k - 1, 0);
        }
      }
    }
  }

  /** The root of any event names a surviving ancestor, after an insert. */
  lemma RootNamesAncestor(db: Db, lineage: Lineage, rank: map<EventId, nat>, id: EventId, parent: Option<EventId>, e: EventId)
    requires RootsRight(db, lineage) && Ranked(lineage, rank) && db.events.Keys <= lineage.Keys && id !in lineage
    requires Inserted(db, id, parent, None).Ok?
    requires var after := Inserted(db, id, parent, None).value; e in after.events && after.events[e].root.Some?
    ensures var after, longer := Inserted(db, id, parent, None).value, lineage[id := parent];
            && after.events[e].root.value in after.events
            && exists k: nat :: Reach(longer, e, k) == after.events[e].root
  {
    var longer := lineage[id := parent];
    ParentIsAlive(db, id, parent, None);
    if e != id {
      var k: nat :| Reach(lineage, e, k) == db.events[e].root;
      ReachKept(lineage, rank, id, parent, e, k);
    } else if parent.None? {
      assert Reach(longer, id, 0) == Some(id);
    } else {
      var p := parent.value;
      var k: nat;
      if db.events[p].root.Some? {
        k :| Reach(lineage, p, k) == db.events[p].root;
      } else {
        k := 0;
      }
      ReachKept(lineage, rank, id, parent, p, k);
      assert Reach(longer, id, k + 1) == Reach(longer, p, k);
    }
  }

  lemma InsertKeepsRoots(db: Db, lineage: Lineage, rank: map<EventId, nat>, id: EventId, parent: Option<EventId>)
    requires RootsRight(db, lineage) && Ranked(lineage, rank) && db.events.Keys <= lineage.Keys && id !in lineage
    requires Inserted(db, id, parent, None).Ok?
    ensures RootsRight(Inserted(db, id, parent, None).value, lineage[id := parent])
  {
    var after, longer := Inserted(db, id, parent, None).value, lineage[id := parent];
    assert after.events.Keys == db.events.Keys + {id};
    forall e, a, k: nat | e in after.events && TopAt(longer, e, a, k)
      ensures after.events[e].root == Some(a) <==> a in after.events
    {
      if e == id {
        NewTop(db, lineage, rank, id, parent, a, k);
      } else {
        OlderTops(db, lineage, rank, id, parent, e, a, k);
      }
    }
    forall e | e in after.events && after.events[e].root.Some?
      ensures after.events[e].root.value in after.events && exists k: nat :: Reach(longer, e, k) == after.events[e].root
    {
      RootNamesAncestor(db, lineage, rank, id, parent, e);
    }
  }

  ghost predicate ShareAncestor(lineage: Lineage, e: EventId, f: EventId) {
    exists i: nat, j: nat :: Reach(lineage, e, i).Some? && Reach(lineage, e, i) == Reach(lineage, f, j)
  }

  lemma RelatedShareTop(lineage: Lineage, e: EventId, f: EventId, a: EventId, j: nat, b: EventId, k: nat)
    requires TopAt(lineage, e, a, j) && TopAt(lineage, f, b, k)
    ensures a == b <==> ShareAncestor(lineage, e, f)
  {
    if i: nat, l: nat :| Reach(lineage, e, i).Some? && Reach(lineage, e, i) == Reach(lineage, f, l) {
      TopIsHighest(lineage, e, a, j, i);
      TopIsHighest(lineage, f, b, k, l);
      ReachAdd(lineage, e, i, j - i);
      ReachAdd(lineage, f, l, k - l);
      var c := Reach(lineage, e, i).value;
      assert TopAt(lineage, c, a, j - i) && TopAt(lineage, c, b, k - l);
      TopUnique(lineage, c, a, j - i, b, k - l);
    }
  }

  /** Events whose tops survive have the same root exactly when they share an ancestor. */
  lemma SameRootIffRelated(ops: seq<Op>, e: EventId, f: EventId, a: EventId, j: nat, b: EventId, k: nat)
    requires IdsFresh(ops) && RootsUnset(ops)
    requires e in After(ops).events && f in After(ops).events
    requires TopAt(LineageOf(ops), e, a, j) && a in After(ops).events
    requires TopAt(LineageOf(ops), f, b, k) && b in After(ops).events
    ensures After(ops).events[e].root == Some(a) && After(ops).events[f].root == Some(b)
    ensures After(ops).events[e].root == After(ops).events[f].root <==> ShareAncestor(LineageOf(ops), e, f)
  {
    var lineage := LineageOf(ops);
    RootIsTopWhileItSurvives(ops);
    RelatedShareTop(lineage, e, f, a, j, b, k);
  }

  /** When nothing is deleted every event stays. */
  lemma {:induction false} InsertOnlyKeepsAll(ops: seq<Op>)
    requires forall i :: 0 <= i < |ops| ==> ops[i].Insert?
    ensures After(ops).events.Keys == LineageOf(ops).Keys
  {
    if ops != [] {
      InsertOnlyKeepsAll(ops[..|ops| - 1]);
    }
  }

  /**
   Insert-only histories: every event's root is its ancestor of greatest depth in the closure
   table, and two events have the same root exactly when they share an ancestor.
   */
  lemma InsertOnlyRoots(ops: seq<Op>, e: EventId, f: EventId)
    requires IdsFresh(ops) && RootsUnset(ops) && forall i :: 0 <= i < |ops| ==> ops[i].Insert?
    requires e in After(ops).events && f in After(ops).events
    ensures After(ops).events[e].root.Some?
    ensures exists k :: && ClosureRow(After(ops).events[e].root.value, e, k) in After(ops).closure
                        && forall r :: r in After(ops).closure && r.descendant == e ==> r.depth <= k
    ensures After(ops).events[e].root == After(ops).events[f].root <==> ShareAncestor(LineageOf(ops), e, f)
  {
    var db, lineage := After(ops), LineageOf(ops);
    var rank := LineageRanked(ops);
    InsertOnlyKeepsAll(ops);
    var a, j := TopExists(lineage, rank, e);
    var b, k := TopExists(lineage, rank, f);
    SameRootIffRelated(ops, e, f, a, j, b, k);
    ClosureIsLineage(ops);
    assert Expected(db, lineage, ClosureRow(a, e, j));
    forall r | r in db.closure && r.descendant == e ensures r.depth <= j {
      assert Expected(db, lineage, r);
      TopIsHighest(lineage, e, a, j, r.depth);
    }
  }

  /** Once the top is deleted, two children of one parent may have different roots. */
  lemma RootsDivergeAfterDelete(top: EventId, parent: EventId, early: EventId, late: EventId) returns (ops: seq<Op>)
    requires top != parent && early !in {top, parent} && late !in {top, parent, early}
    ensures IdsFresh(ops) && RootsUnset(ops)
    ensures var db := After(ops);
            && early in db.events && late in db.events
            && db.events[early].parent == db.events[late].parent == Some(parent)
            && db.events[early].root == None
            && db.events[late].root == Some(parent)
  {
    var deleted := TopDeleted(top, parent, early);
    Grow(deleted, Insert(late, Some(parent), None));
    ops := deleted + [Insert(late, Some(parent), None)];
  }

  lemma TopDeleted(top: EventId, parent: EventId, child: EventId) returns (ops: seq<Op>)
    requires top != parent && child !in {top, parent}
    ensures IdsFresh(ops) && RootsUnset(ops) && LineageOf(ops).Keys == {top, parent, child}
    ensures After(ops).events == map[parent := EventRow(None, None), child := EventRow(Some(parent), None)]
  {
    var three := ThreeGenerations(top, parent, child);
    Grow(three, Delete(top));
    ops := three + [Delete(top)];
    assert After(ops).events.Keys == {parent, child};
  }

  lemma ThreeGenerations(top: EventId, parent: EventId, child: EventId) returns (ops: seq<Op>)
    requires top != parent && child !in {top, parent}
    ensures IdsFresh(ops) && RootsUnset(ops) && LineageOf(ops).Keys == {top, parent, child}
    ensures After(ops).events == map[top := EventRow(None, Some(top)), parent := EventRow(Some(top), Some(top)),
                                     child := EventRow(Some(parent), Some(top))]
  {
    var two := TwoGenerations(top, parent);
    Grow(two, Insert(child, Some(parent), None));
    ops := two + [Insert(child, Some(parent), None)];
  }

  lemma TwoGenerations(top: EventId, child: EventId) returns (ops: seq<Op>)
    requires top != child
    ensures IdsFresh(ops) && RootsUnset(ops) && LineageOf(ops).Keys == {top, child}
    ensures After(ops).events == map[top := EventRow(None, Some(top)), child := EventRow(Some(top), Some(top))]
  {
    Grow([], Insert(top, None, None));
    var one := [] + [Insert(top, None, None)];
    assert After(one).events == map[top := EventRow(None, Some(top))];
    Grow(one, Insert(child, Some(top), None));
    ops := one + [Insert(child, Some(top), None)];
  }

  lemma Grow(ops: seq<Op>, op: Op)
    requires IdsFresh(ops) && (op.Insert? ==> op.id !in LineageOf(ops))
    ensures IdsFresh(ops + [op])
    ensures RootsUnset(ops) && (op.Insert? ==> op.root.None?) ==> RootsUnset(ops + [op])
    ensures var db := After(ops);
            && (op.Delete? ==> After(ops + [op]) == Deleted(db, op.id) && LineageOf(ops + [op]) == LineageOf(ops))
            && (op.Insert? && (op.parent.Some? ==> op.parent.value in db.events) && op.root.None? ==>
                  && After(ops + [op]).events ==
                     db.events[op.id := EventRow(op.parent, ResolvedRoot(db.events[op.id := EventRow(op.parent, None)], op.id, op.parent, None))]
                  && LineageOf(ops + [op]) == LineageOf(ops)[op.id := op.parent])
  {
    assert (ops + [op])[..|ops|] == ops;
    if op.Insert? {
      InsertSucceedsExactly(ops, op.id, op.parent, op.root);
    }
  }
}
