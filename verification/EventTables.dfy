/**
 The tables of server/rapidly/models/event.py: events with a parent and a root pointer, the
 closure rows an insert hook maintains, and the foreign-key actions of a delete.
 */
module EventTables {
  import opened Prelude

  /** A UUID is a 128-bit number. */
  type EventId = int

  datatype EventRow = EventRow(parent: Option<EventId>, root: Option<EventId>)

  datatype ClosureRow = ClosureRow(ancestor: EventId, descendant: EventId, depth: int)

  datatype Db = Db(events: map<EventId, EventRow>, closure: set<ClosureRow>)

  const EMPTY := Db(map[], {})

  datatype Failure = DuplicateEvent | ForeignKey | DuplicateClosure

  // ----- inserting ----------------------------------------------------------------------

  /** A reference is satisfied by an existing event or by the row being inserted itself. */
  predicate Satisfied(db: Db, id: EventId, reference: Option<EventId>) {
    reference.None? || reference.value == id || reference.value in db.events
  }

  /** Two rows with the primary key of the closure table in common. */
  predicate SameKey(r: ClosureRow, s: ClosureRow) {
    r.ancestor == s.ancestor && r.descendant == s.descendant
  }

  predicate Conflicts(present: set<ClosureRow>, added: set<ClosureRow>) {
    || (exists r, s :: r in present && s in added && SameKey(r, s))
    || (exists r, s :: r in added && s in added && r != s && SameKey(r, s))
  }

  /** The rows of the parent's ancestors, one step deeper. */
  function Propagated(closure: set<ClosureRow>, id: EventId, parent: EventId): set<ClosureRow> {
    set r | r in closure && r.descendant == parent :: ClosureRow(r.ancestor, id, r.depth + 1)
  }

  function ResolvedRoot(events: map<EventId, EventRow>, id: EventId, parent: Option<EventId>, root: Option<EventId>): Option<EventId> {
    if root.Some? then root
    else if parent.None? then Some(id)
    else if parent.value in events && events[parent.value].root.Some? then events[parent.value].root
    else parent
  }

  /** The insert statement and its hook; a failing statement rolls everything back. */
  function Inserted(db: Db, id: EventId, parent: Option<EventId>, root: Option<EventId>): Result<Db, Failure> {
    if id in db.events then Err(DuplicateEvent)
    else if !Satisfied(db, id, parent) || !Satisfied(db, id, root) then Err(ForeignKey)
    else
      var events := db.events[id := EventRow(parent, root)];
      var own := {ClosureRow(id, id, 0)};
      if Conflicts(db.closure, own) then Err(DuplicateClosure)
      else
        var closure := db.closure + own;
        var inherited := if parent.None? then {} else Propagated(closure, id, parent.value);
        if Conflicts(closure, inherited) then Err(DuplicateClosure)
        else
          Ok(Db(events[id := EventRow(parent, ResolvedRoot(events, id, parent, root))], closure + inherited))
  }

  // ----- deleting -----------------------------------------------------------------------

  function Cleared(reference: Option<EventId>, id: EventId): Option<EventId> {
    if reference == Some(id) then None else reference
  }

  /** `set null` on the references of other events, `cascade` on the closure rows. */
  function Deleted(db: Db, id: EventId): Db {
    Db(map e | e in db.events && e != id ::
         EventRow(Cleared(db.events[e].parent, id), Cleared(db.events[e].root, id)),
       set r | r in db.closure && r.ancestor != id && r.descendant != id)
  }

  // ----- the tables as mutable state ----------------------------------------------------

  class EventStore {
    var events: map<EventId, EventRow>
    var closure: set<ClosureRow>

    constructor ()
      ensures Contents() == EMPTY
    {
      events, closure := map[], {};
    }

    function Contents(): Db
      reads this
    {
      Db(events, closure)
    }

    /** One `insert` into the closure table, checked against its primary key. */
    method InsertClosure(rows: set<ClosureRow>) returns (ok: bool)
      modifies this`closure
      ensures ok <==> !Conflicts(old(closure), rows)
      ensures closure == if ok then old(closure) + rows else old(closure)
    {
      ok := !Conflicts(closure, rows);
      if ok {
        closure := closure + rows;
      }
    }

    /** The `after_insert` hook for a row already in `events`. */
    method PopulateEventClosure(id: EventId) returns (ok: bool)
      requires id in events
      modifies this
      ensures var row := old(events[id]);
              var own := {ClosureRow(id, id, 0)};
              var inherited := if row.parent.None? then {} else Propagated(old(closure) + own, id, row.parent.value);
              && (ok <==> !Conflicts(old(closure), own) && !Conflicts(old(closure) + own, inherited))
              && (ok ==> closure == old(closure) + own + inherited)
              && (ok ==> events == old(events)[id := row.(root := ResolvedRoot(old(events), id, row.parent, row.root))])
    {
      var row := events[id];
      ok := InsertClosure({ClosureRow(id, id, 0)});
      if !ok {
        return;
      }
      if row.parent.Some? {
        ok := InsertClosure(Propagated(closure, id, row.parent.value));
        if !ok {
          return;
        }
      }
      if row.root.None? {
        if row.parent.None? {
          events := events[id := row.(root := Some(id))];
        } else {
          var parentRoot := if row.parent.value in events then events[row.parent.value].root else None;
          var resolved := if parentRoot.Some? then parentRoot else row.parent;
          events := events[id := row.(root := resolved)];
        }
      }
    }

    method Insert(id: EventId, parent: Option<EventId>, root: Option<EventId>) returns (ok: bool)
      modifies this
      ensures ok <==> Inserted(old(Contents()), id, parent, root).Ok?
      ensures Contents() == if ok then Inserted(old(Contents()), id, parent, root).value else old(Contents())
    {
      var before, rows := events, closure;
      if id in events || !Satisfied(Contents(), id, parent) || !Satisfied(Contents(), id, root) {
        return false;
      }
      events := events[id := EventRow(parent, root)];
      ok := PopulateEventClosure(id);
      if !ok {
        events, closure := before, rows;
      }
    }

    method Delete(id: EventId)
      modifies this
      ensures Contents() == Deleted(old(Contents()), id)
    {
      closure := set r | r in closure && r.ancestor != id && r.descendant != id;
      events := map e | e in events && e != id ::
        EventRow(Cleared(events[e].parent, id), Cleared(events[e].root, id));
    }
  }
}
