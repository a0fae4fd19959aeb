/**
 The closure table when it is written by the batch job of
 server/rapidly/analytics/event/actions.py as well as by the insert hook: ingested events have no
 rows until their batch is populated, batches may be populated in any order, and events may be
 deleted at any time.
 */
module ClosureWorld {
  import opened Prelude
  import opened EventTables
  import opened EventLineage

  /** `populated` are the surviving events whose rows have been written. */
  datatype World = World(db: Db, lineage: Lineage, populated: set<EventId>)

  /** A surviving event points to its parent of old, or to none if that was deleted. */
  predicate ParentsCurrent(db: Db, lineage: Lineage) {
    && db.events.Keys <= lineage.Keys
    && forall e {:trigger db.events[e]} :: e in db.events ==>
                  db.events[e].parent == (if lineage[e].Some? && lineage[e].value in db.events then lineage[e] else None)
  }

  ghost predicate Standing(w: World, rank: map<EventId, nat>) {
    Ranked(w.lineage, rank) && ParentsCurrent(w.db, w.lineage) && w.populated <= w.db.events.Keys
  }

  function Own(e: EventId): ClosureRow {
    ClosureRow(e, e, 0)
  }

  /** No row is wrong, and the populated events have at least their own. */
  ghost predicate Sound(w: World) {
    && (forall row :: row in w.db.closure ==> Expected(w.db, w.lineage, row) && row.descendant in w.populated)
    && (forall e :: e in w.populated ==> Own(e) in w.db.closure)
  }

  /** The populated events have exactly the rows they should have. */
  ghost predicate Exact(w: World) {
    forall row :: row in w.db.closure <==> Expected(w.db, w.lineage, row) && row.descendant in w.populated
  }

  lemma ExactIsSound(w: World)
    requires Exact(w) && w.populated <= w.db.events.Keys && ParentsCurrent(w.db, w.lineage)
    ensures Sound(w)
  {
    forall e | e in w.populated ensures Own(e) in w.db.closure {
      assert Expected(w.db, w.lineage, Own(e));
    }
  }

  // ----- writing the rows of new events -------------------------------------------------

  /** The row one step lower on the chain: what the parent's row becomes for its child. */
  function Above(events: map<EventId, EventRow>, row: ClosureRow): Option<ClosureRow>
  {
    if row.descendant in events && events[row.descendant].parent.Some?
    then Some(ClosureRow(row.ancestor, events[row.descendant].parent.value, row.depth - 1))
    else None
  }

  predicate Derived(events: map<EventId, EventRow>, after: set<ClosureRow>, row: ClosureRow) {
    row == Own(row.descendant) || (Above(events, row).Some? && Above(events, row).value in after)
  }

  /**
   What the hook and the batch job have in common: the new events get their own row and what
   their parents have in the end, one deeper; other events keep their rows.
   */
  ghost predicate Extends(events: map<EventId, EventRow>, before: set<ClosureRow>, after: set<ClosureRow>, batch: set<EventId>) {
    forall row :: row in after <==> if row.descendant in batch then Derived(events, after, row) else row in before
  }

  function Populated(w: World, after: set<ClosureRow>, batch: set<EventId>): World {
    w.(db := w.db.(closure := after), populated := w.populated + batch)
  }

  /**
   The rows of `e` can be written in full: its parent has its rows or is of the same batch, or
   no ancestor of `e` survives.
   */
  ghost predicate InTime(w: World, batch: set<EventId>, e: EventId) {
    e in w.lineage && (w.lineage[e].Some? ==>
      || w.lineage[e].value in w.populated + batch
      || forall k: nat :: 1 <= k && Reach(w.lineage, e, k).Some? ==> Reach(w.lineage, e, k).value !in w.db.events)
  }

  lemma {:induction false} RowIsSound(w: World, rank: map<EventId, nat>, after: set<ClosureRow>, batch: set<EventId>, row: ClosureRow)
    requires Standing(w, rank) && Sound(w) && batch <= w.db.events.Keys
    requires Extends(w.db.events, w.db.closure, after, batch) && row in after
    ensures Expected(w.db, w.lineage, row) && row.descendant in w.populated + batch
    decreases if row.descendant in rank then rank[row.descendant] else 0
  {
    var e := row.descendant;
    if e in batch && row != Own(e) {
      RowIsSound(w, rank, after, batch, Above(w.db.events, row).value);
      assert Reach(w.lineage, e, row.depth) == Reach(w.lineage, w.lineage[e].value, row.depth - 1);
    }
  }

  /** Whatever the order batches are populated in, no wrong row is ever written. */
  lemma ExtendingIsSound(w: World, rank: map<EventId, nat>, after: set<ClosureRow>, batch: set<EventId>)
    requires Standing(w, rank) && Sound(w) && batch <= w.db.events.Keys && batch !! w.populated
    requires Extends(w.db.events, w.db.closure, after, batch)
    ensures Sound(Populated(w, after, batch)) && Standing(Populated(w, after, batch), rank)
  {
    forall row | row in after ensures Expected(w.db, w.lineage, row) && row.descendant in w.populated + batch {
      RowIsSound(w, rank, after, batch, row);
    }
  }

  lemma {:induction false} RowIsThere(w: World, rank: map<EventId, nat>, after: set<ClosureRow>, batch: set<EventId>, row: ClosureRow)
    requires Standing(w, rank) && Exact(w) && batch <= w.db.events.Keys && batch !! w.populated
    requires Extends(w.db.events, w.db.closure, after, batch)
    requires forall e :: e in batch ==> InTime(w, batch, e)
    requires Expected(w.db, w.lineage, row) && row.descendant in w.populated + batch
    ensures row in after
    decreases if row.descendant in rank then rank[row.descendant] else 0
  {
    var e := row.descendant;
    if e in batch && row.depth > 0 {
      assert InTime(w, batch, e);
      var p := w.lineage[e].value;
      assert Reach(w.lineage, e, row.depth) == Reach(w.lineage, p, row.depth - 1);
      RowIsThere(w, rank, after, batch, ClosureRow(row.ancestor, p, row.depth - 1));
    }
  }

  /** An event that comes too early gets its own row and no other. */
  lemma TooEarlyMissesRows(w: World, after: set<ClosureRow>, batch: set<EventId>, e: EventId) returns (row: ClosureRow)
    requires ParentsCurrent(w.db, w.lineage) && w.populated <= w.db.events.Keys && Sound(w)
    requires batch <= w.db.events.Keys
    requires Extends(w.db.events, w.db.closure, after, batch)
    requires e in batch && !InTime(w, batch, e)
    ensures Expected(w.db, w.lineage, row) && row.descendant == e && 0 < row.depth && row !in after
  {
    var k: nat :| 1 <= k && Reach(w.lineage, e, k).Some? && Reach(w.lineage, e, k).value in w.db.events;
    row := ClosureRow(Reach(w.lineage, e, k).value, e, k);
    if row in after {
      assert false;
    }
  }

  /** All rows are right after a batch exactly when every event of it came in time. */
  lemma ExactIffInTime(w: World, rank: map<EventId, nat>, after: set<ClosureRow>, batch: set<EventId>)
    requires Standing(w, rank) && Exact(w) && batch <= w.db.events.Keys && batch !! w.populated
    requires Extends(w.db.events, w.db.closure, after, batch)
    ensures Exact(Populated(w, after, batch)) <==> forall e :: e in batch ==> InTime(w, batch, e)
  {
    ExactIsSound(w);
    ExtendingIsSound(w, rank, after, batch);
    if forall e :: e in batch ==> InTime(w, batch, e) {
      forall row | Expected(w.db, w.lineage, row) && row.descendant in w.populated + batch ensures row in after {
        RowIsThere(w, rank, after, batch, row);
      }
      assert Exact(Populated(w, after, batch));
    } else {
      var e :| e in batch && !InTime(w, batch, e);
      var row := TooEarlyMissesRows(w, after, batch, e);
      assert Expected(Populated(w, after, batch).db, w.lineage, row);
    }
  }
}
