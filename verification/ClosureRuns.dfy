/** Whole histories of the closure table under ingestion, batch jobs, hook inserts and deletes. */
module ClosureRuns {
  import opened Prelude
  import opened NatSets
  import opened EventTables
  import opened EventLineage
  import opened TopologicalSort
  import opened ClosureWorld
  import opened ClosureBatch

  datatype Change =
    | Create(id: EventId, parent: Option<EventId>, root: Option<EventId>)
    | Ingest(rows: map<EventId, EventRow>, listing: seq<Listed>, order: seq<nat>)
    | Remove(id: EventId)
    | Populate(listing: seq<Listed>, order: seq<nat>)

  const START := World(EMPTY, map[], {})

  function ParentsIn(rows: map<EventId, EventRow>): Lineage {
    map e | e in rows :: rows[e].parent
  }

  function WithEvents(w: World, rows: map<EventId, EventRow>): World {
    w.(db := w.db.(events := w.db.events + rows), lineage := w.lineage + ParentsIn(rows))
  }

  predicate ReferencesMet(db: Db, rows: map<EventId, EventRow>) {
    forall e {:trigger rows[e]} :: e in rows ==>
                  && (rows[e].parent.Some? ==> rows[e].parent.value in rows || rows[e].parent.value in db.events)
                  && (rows[e].root.Some? ==> rows[e].root.value in rows || rows[e].root.value in db.events)
  }

  /** What the database takes; a change it refuses is rolled back. */
  predicate Accepted(w: World, change: Change) {
    match change
    case Create(id, parent, root) => Inserted(w.db, id, parent, root).Ok?
    case Ingest(rows, _, _) => ReferencesMet(w.db, rows)
    case Remove(_) => true
    case Populate(listing, order) => Below(order, |listing|) && !Conflicts(w.db.closure, RowsOf(w.db.closure, listing, order))
  }

  function Changed(w: World, change: Change): World {
    if !Accepted(w, change) then w
    else
      match change
      case Create(id, parent, root) =>
        World(Inserted(w.db, id, parent, root).value, w.lineage[id := parent], w.populated + {id})
      case Ingest(rows, _, _) => WithEvents(w, rows)
      case Remove(id) => World(Deleted(w.db, id), w.lineage, w.populated - {id})
      case Populate(listing, order) =>
        Populated(w, w.db.closure + RowsOf(w.db.closure, listing, order), Ids(listing))
  }

  /** Ids are fresh, ingested events have been sorted, and the job reads the events there are. */
  ghost predicate Possible(w: World, change: Change) {
    match change
    case Create(id, _, _) => id !in w.lineage
    case Ingest(rows, listing, order) =>
      && rows.Keys !! w.lineage.Keys
      && Lists(rows, listing) && Ids(listing) == rows.Keys && Sorted(ParentsOf(ItemsOf(listing)), order)
    case Remove(_) => true
    case Populate(listing, order) => Lists(w.db.events, listing) && Sorted(ParentsOf(ItemsOf(listing)), order)
  }

  /** Rows are written only for events whose parents have theirs, or have none to pass on. */
  ghost predicate Timely(w: World, change: Change) {
    match change
    case Create(_, parent, _) => parent.Some? ==> parent.value in w.populated
    case Populate(listing, _) => forall e :: e in Ids(listing) ==> InTime(w, Ids(listing), e)
    case _ => true
  }

  function History(changes: seq<Change>): World {
    if changes == [] then START else Changed(History(changes[..|changes| - 1]), changes[|changes| - 1])
  }

  ghost predicate Feasible(changes: seq<Change>) {
    forall i :: 0 <= i < |changes| ==> PossibleAt(changes, i)
  }

  ghost predicate PossibleAt(changes: seq<Change>, i: nat)
    requires i < |changes|
  {
    Possible(History(changes[..i]), changes[i])
  }

  ghost predicate AllTimely(changes: seq<Change>) {
    forall i :: 0 <= i < |changes| ==> TimelyAt(changes, i)
  }

  ghost predicate TimelyAt(changes: seq<Change>, i: nat)
    requires i < |changes|
  {
    Accepted(History(changes[..i]), changes[i]) ==> Timely(History(changes[..i]), changes[i])
  }

  // ----- new events ---------------------------------------------------------------------

  lemma {:induction false} ReachSame(lineage: Lineage, rank: map<EventId, nat>, longer: Lineage, d: EventId, k: nat)
    requires Ranked(lineage, rank) && d in lineage
    requires forall e :: e in lineage ==> e in longer && longer[e] == lineage[e]
    ensures Reach(longer, d, k) == Reach(lineage, d, k)
    decreases k
  {
    if k > 0 && lineage[d].Some? {
      ReachSame(lineage, rank, longer, lineage[d].value, k - 1);
    }
  }

  /** New events change nothing for the old ones. */
  lemma ExpectedSame(w: World, rank: map<EventId, nat>, rows: map<EventId, EventRow>, row: ClosureRow)
    requires Standing(w, rank) && rows.Keys !! w.lineage.Keys && row.descendant in w.db.events
    ensures var after := WithEvents(w, rows);
            Expected(after.db, after.lineage, row) <==> Expected(w.db, w.lineage, row)
  {
    var after := WithEvents(w, rows);
    if 0 <= row.depth {
      ReachSame(w.lineage, rank, after.lineage, row.descendant, row.depth);
      if Reach(w.lineage, row.descendant, row.depth).Some? {
        ReachRank(w.lineage, rank, row.descendant, row.depth);
      }
    }
  }

  lemma NewEventsKeep(w: World, rank: map<EventId, nat>, rows: map<EventId, EventRow>)
    requires Standing(w, rank) && rows.Keys !! w.lineage.Keys
    ensures Sound(w) ==> Sound(WithEvents(w, rows))
    ensures Exact(w) ==> Exact(WithEvents(w, rows))
  {
    var after := WithEvents(w, rows);
    forall row: ClosureRow | row.descendant in w.populated
      ensures Expected(after.db, after.lineage, row) <==> Expected(w.db, w.lineage, row)
    {
      ExpectedSame(w, rank, rows, row);
    }
  }

  lemma RankBound(rank: map<EventId, nat>) returns (bound: nat)
    ensures forall e :: e in rank ==> rank[e] < bound
  {
    bound := 0;
    if rank.Values != {} {
      var greatest := Greatest(rank.Values);
      bound := greatest + 1;
      assert forall e :: e in rank ==> rank[e] in rank.Values;
    }
  }

  /** Where a listed event stands in the order. */
  ghost function Place(listing: seq<Listed>, order: seq<nat>, e: EventId): (a: nat)
    requires Below(order, |listing|) && e in IdsAt(listing, order)
    ensures a < |order| && listing[order[a]].id == e
  {
    var a :| 0 <= a < |order| && listing[order[a]].id == e;
    a
  }

  lemma ParentPlacedBefore(listing: seq<Listed>, order: seq<nat>, e: EventId)
    requires DistinctIds(listing) && Visits(listing, order) && e in IdsAt(listing, order)
    requires var parent := listing[order[Place(listing, order, e)]].parent;
             parent.Some? && parent.value in IdsAt(listing, order)
    ensures Place(listing, order, listing[order[Place(listing, order, e)]].parent.value) < Place(listing, order, e)
  {
    var a := Place(listing, order, e);
    var p := listing[order[a]].parent.value;
    IdsAtListed(listing, order);
    ParentVisited(listing, order, a);
    var b :| 0 <= b < a && listing[order[..a][b]].id == p;
    var c := Place(listing, order, p);
    assert listing[order[b]].id == listing[order[c]].id;
  }

  /** The old events keep their rank, the ingested ones follow in their order. */
  ghost function RankAfter(rank: map<EventId, nat>, bound: nat, listing: seq<Listed>, order: seq<nat>): map<EventId, nat>
    requires Below(order, |listing|)
  {
    map e | e in rank.Keys + IdsAt(listing, order) ::
      if e in IdsAt(listing, order) then bound + Place(listing, order, e) else rank[e]
  }

  lemma IngestRanks(w: World, rank: map<EventId, nat>, bound: nat, rows: map<EventId, EventRow>, listing: seq<Listed>, order: seq<nat>, e: EventId)
    requires Standing(w, rank) && (forall d :: d in rank ==> rank[d] < bound)
    requires rows.Keys !! w.lineage.Keys && Lists(rows, listing) && Visits(listing, order) && IdsAt(listing, order) == rows.Keys
    requires ReferencesMet(w.db, rows)
    requires e in WithEvents(w, rows).lineage
    ensures var parent, longer := WithEvents(w, rows).lineage[e], RankAfter(rank, bound, listing, order);
            e in longer && (parent.Some? ==> parent.value in longer && longer[parent.value] < longer[e])
  {
    if e in rows && rows[e].parent.Some? {
      var p := rows[e].parent.value;
      assert listing[order[Place(listing, order, e)]].parent == rows[e].parent;
      if p in rows {
        ParentPlacedBefore(listing, order, e);
      } else {
        assert p in w.db.events && p in rank;
      }
    }
  }

  lemma IngestCurrent(w: World, rank: map<EventId, nat>, rows: map<EventId, EventRow>)
    requires Standing(w, rank) && rows.Keys !! w.lineage.Keys && ReferencesMet(w.db, rows)
    ensures var after := WithEvents(w, rows);
            ParentsCurrent(after.db, after.lineage) && after.populated <= after.db.events.Keys
  {
  }

  lemma IngestRanked(w: World, rank: map<EventId, nat>, bound: nat, rows: map<EventId, EventRow>, listing: seq<Listed>, order: seq<nat>)
    requires Standing(w, rank) && (forall d :: d in rank ==> rank[d] < bound)
    requires rows.Keys !! w.lineage.Keys && Lists(rows, listing) && Visits(listing, order) && IdsAt(listing, order) == rows.Keys
    requires ReferencesMet(w.db, rows)
    ensures Ranked(WithEvents(w, rows).lineage, RankAfter(rank, bound, listing, order))
  {
    var lineage, longer := WithEvents(w, rows).lineage, RankAfter(rank, bound, listing, order);
    assert longer.Keys == lineage.Keys;
    forall e | e in lineage
      ensures lineage[e].Some? ==> lineage[e].value in longer && longer[lineage[e].value] < longer[e]
    {
      IngestRanks(w, rank, bound, rows, listing, order, e);
    }
  }

  /** Ingested events come after all others, each after its parent. */
  lemma IngestStanding(w: World, rank: map<EventId, nat>, rows: map<EventId, EventRow>, listing: seq<Listed>, order: seq<nat>)
    returns (longer: map<EventId, nat>)
    requires Standing(w, rank) && Possible(w, Ingest(rows, listing, order)) && ReferencesMet(w.db, rows)
    ensures Standing(WithEvents(w, rows), longer)
  {
    var bound := RankBound(rank);
    AllVisited(listing, order);
    longer := RankAfter(rank, bound, listing, order);
    IngestCurrent(w, rank, rows);
    IngestRanked(w, rank, bound, rows, listing, order);
  }

  // ----- the hook -----------------------------------------------------------------------

  /** The hook, too, gives the new event its own row and its parent's. */
  lemma HookExtends(db: Db, id: EventId, parent: Option<EventId>, root: Option<EventId>)
    requires Inserted(db, id, parent, root).Ok? && Unpopulated(db.closure, {id})
    ensures var after := Inserted(db, id, parent, root).value;
            Extends(after.events, db.closure, after.closure, {id})
  {
    var after := Inserted(db, id, parent, root).value;
    ParentIsAlive(db, id, parent, root);
    forall row
      ensures row in after.closure <==>
              if row.descendant in {id} then Derived(after.events, after.closure, row) else row in db.closure
    {
      if row.descendant == id {
        NewRows(db, id, parent, root, row);
        if parent.Some? {
          assert after.events[id].parent == parent;
        }
      }
    }
  }

  // ----- the job ------------------------------------------------------------------------

  lemma {:induction false} ChainEnds(w: World, rank: map<EventId, nat>, listing: seq<Listed>, i: nat)
    requires Standing(w, rank) && Lists(w.db.events, listing) && i < |listing|
    ensures Ends(ParentsOf(ItemsOf(listing)), i)
    decreases rank[listing[i].id]
  {
    var ps := ParentsOf(ItemsOf(listing));
    EndsByParent(ps, i);
    if ps[i].Some? {
      var p := ps[i].value;
      ParentPosition(listing, i, p);
      var e := listing[i].id;
      assert w.db.events[e].parent == Some(listing[p].id);
      assert w.lineage[e] == Some(listing[p].id);
      ChainEnds(w, rank, listing, p);
    }
  }

  /** The parents in the table form no cycle, so the job's sort never fails. */
  lemma SortNeverFails(w: World, rank: map<EventId, nat>, listing: seq<Listed>)
    requires Standing(w, rank) && Lists(w.db.events, listing)
    ensures AllEnd(ParentsOf(ItemsOf(listing)))
  {
    forall i | 0 <= i < |listing| ensures Ends(ParentsOf(ItemsOf(listing)), i) {
      ChainEnds(w, rank, listing, i);
    }
  }

  lemma {:induction false} OwnWritten(closure: set<ClosureRow>, listing: seq<Listed>, order: seq<nat>, e: EventId)
    requires Below(order, |listing|) && e in IdsAt(listing, order)
    ensures Own(e) in RowsOf(closure, listing, order)
  {
    var n := |order| - 1;
    IdsAtLonger(listing, order);
    if e != listing[order[n]].id {
      OwnWritten(closure, listing, order[..n], e);
    }
  }

  lemma OneRowPerPair(w: World, rank: map<EventId, nat>, r: ClosureRow, s: ClosureRow)
    requires Ranked(w.lineage, rank) && Expected(w.db, w.lineage, r) && Expected(w.db, w.lineage, s) && SameKey(r, s)
    ensures r == s
  {
    ReachOnce(w.lineage, rank, r.descendant, r.depth, s.depth);
  }

  lemma NamesOnlyListed(events: map<EventId, EventRow>, listing: seq<Listed>)
    requires Lists(events, listing)
    ensures Ids(listing) <= events.Keys
  {
  }

  /** The job's insert clashes exactly when an event of the batch has rows already. */
  lemma BatchConflictsExactly(w: World, rank: map<EventId, nat>, listing: seq<Listed>, order: seq<nat>)
    requires Standing(w, rank) && Sound(w) && Possible(w, Populate(listing, order))
    ensures Accepted(w, Populate(listing, order)) <==> Ids(listing) !! w.populated
  {
    var closure, batch := w.db.closure, Ids(listing);
    AllVisited(listing, order);
    NamesOnlyListed(w.db.events, listing);
    var rows := RowsOf(closure, listing, order);
    if batch !! w.populated {
      BatchExtends(w.db.events, closure, listing, order);
      forall r, s | r in closure + rows && s in rows && SameKey(r, s) ensures r == s && r !in closure {
        RowIsSound(w, rank, closure + rows, batch, r);
        RowIsSound(w, rank, closure + rows, batch, s);
        OneRowPerPair(w, rank, r, s);
        RowsBelong(closure, listing, order, s);
      }
    } else {
      var e :| e in batch && e in w.populated;
      OwnWritten(closure, listing, order, e);
      assert SameKey(Own(e), Own(e));
    }
  }

  // ----- histories ----------------------------------------------------------------------

  /** The world the hook finds: the row of the event is there, its closure rows are not. */
  function Inserting(w: World, id: EventId, parent: Option<EventId>, root: Option<EventId>): World
    requires Inserted(w.db, id, parent, root).Ok?
  {
    WithEvents(w, map[id := Inserted(w.db, id, parent, root).value.events[id]])
  }

  /** A hook insert is the arrival of one event and its immediate population. */
  lemma HookIsBatchOfOne(w: World, rank: map<EventId, nat>, id: EventId, parent: Option<EventId>, root: Option<EventId>)
    returns (longer: map<EventId, nat>)
    requires Standing(w, rank) && Sound(w) && id !in w.lineage && Inserted(w.db, id, parent, root).Ok?
    ensures var after, found := Inserted(w.db, id, parent, root).value, Inserting(w, id, parent, root);
            && Standing(found, longer) && Sound(found) && (Exact(w) ==> Exact(found))
            && Extends(found.db.events, found.db.closure, after.closure, {id})
            && Changed(w, Create(id, parent, root)) == Populated(found, after.closure, {id})
  {
    var after, found := Inserted(w.db, id, parent, root).value, Inserting(w, id, parent, root);
    var rows := map[id := after.events[id]];
    ParentIsAlive(w.db, id, parent, root);
    assert after.events == w.db.events + rows;
    assert w.lineage[id := parent] == w.lineage + ParentsIn(rows);
    NewEventsKeep(w, rank, rows);
    HookExtends(w.db, id, parent, root);
    var bound := RankBound(rank);
    longer := rank[id := bound];
  }

  /** Every change keeps the table free of wrong rows. */
  lemma ChangeIsSound(w: World, rank: map<EventId, nat>, change: Change) returns (after: map<EventId, nat>)
    requires Standing(w, rank) && Sound(w) && Possible(w, change)
    ensures Standing(Changed(w, change), after) && Sound(Changed(w, change))
  {
    after := rank;
    if Accepted(w, change) {
      match change
      case Create(id, parent, root) =>
        after := HookIsBatchOfOne(w, rank, id, parent, root);
        ExtendingIsSound(Inserting(w, id, parent, root), after, Inserted(w.db, id, parent, root).value.closure, {id});
      case Ingest(rows, listing, order) =>
        after := IngestStanding(w, rank, rows, listing, order);
        NewEventsKeep(w, rank, rows);
      case Remove(id) =>
        RemovalKeeps(w, rank, id);
      case Populate(listing, order) =>
        BatchExtended(w, rank, listing, order);
        ExtendingIsSound(w, rank, w.db.closure + RowsOf(w.db.closure, listing, order), Ids(listing));
    }
  }

  /** What is expected once an event is gone: the rows that do not mention it. */
  lemma ExpectedAfterRemoval(w: World, id: EventId, row: ClosureRow)
    ensures var after := Changed(w, Remove(id));
            Expected(after.db, after.lineage, row) <==>
            Expected(w.db, w.lineage, row) && row.ancestor != id && row.descendant != id
  {
  }

  lemma RemovalStands(w: World, rank: map<EventId, nat>, id: EventId)
    requires Standing(w, rank)
    ensures Standing(Changed(w, Remove(id)), rank)
  {
  }

  lemma RemovalKeeps(w: World, rank: map<EventId, nat>, id: EventId)
    requires Standing(w, rank) && Sound(w)
    ensures Standing(Changed(w, Remove(id)), rank) && Sound(Changed(w, Remove(id)))
    ensures Exact(w) ==> Exact(Changed(w, Remove(id)))
  {
    RemovalStands(w, rank, id);
    RemovalIsSound(w, id);
    if Exact(w) {
      RemovalIsExact(w, id);
    }
  }

  lemma RemovalIsSound(w: World, id: EventId)
    requires Sound(w)
    ensures Sound(Changed(w, Remove(id)))
  {
    var after := Changed(w, Remove(id));
    forall row | row in after.db.closure
      ensures Expected(after.db, after.lineage, row) && row.descendant in after.populated
    {
      ExpectedAfterRemoval(w, id, row);
    }
  }

  lemma RemovalIsExact(w: World, id: EventId)
    requires Exact(w)
    ensures Exact(Changed(w, Remove(id)))
  {
    var after := Changed(w, Remove(id));
    forall row ensures row in after.db.closure <==> Expected(after.db, after.lineage, row) && row.descendant in after.populated {
      ExpectedAfterRemoval(w, id, row);
      assert row in w.db.closure <==> Expected(w.db, w.lineage, row) && row.descendant in w.populated;
    }
  }

  /** An accepted batch extends the table. */
  lemma BatchExtended(w: World, rank: map<EventId, nat>, listing: seq<Listed>, order: seq<nat>)
    requires Standing(w, rank) && Sound(w) && Possible(w, Populate(listing, order)) && Accepted(w, Populate(listing, order))
    ensures Ids(listing) !! w.populated && Ids(listing) <= w.db.events.Keys
    ensures Extends(w.db.events, w.db.closure, w.db.closure + RowsOf(w.db.closure, listing, order), Ids(listing))
  {
    BatchConflictsExactly(w, rank, listing, order);
    NamesOnlyListed(w.db.events, listing);
    BatchExtends(w.db.events, w.db.closure, listing, order);
  }

  /** A change keeps the table exact if and only if the rows it writes are written in time. */
  lemma ExactExactlyIfTimely(w: World, rank: map<EventId, nat>, change: Change)
    requires Standing(w, rank) && Exact(w) && Possible(w, change) && Accepted(w, change)
    ensures Exact(Changed(w, change)) <==> Timely(w, change)
  {
    ExactIsSound(w);
    match change
    case Create(id, parent, root) =>
      var longer := HookIsBatchOfOne(w, rank, id, parent, root);
      var found := Inserting(w, id, parent, root);
      ExactIffInTime(found, longer, Inserted(w.db, id, parent, root).value.closure, {id});
      HookInTime(w, id, parent, root);
    case Ingest(rows, listing, order) =>
      NewEventsKeep(w, rank, rows);
    case Remove(id) =>
      RemovalKeeps(w, rank, id);
    case Populate(listing, order) =>
      BatchExtended(w, rank, listing, order);
      ExactIffInTime(w, rank, w.db.closure + RowsOf(w.db.closure, listing, order), Ids(listing));
  }

  /** The parent of a hook insert is alive, so it must have its rows. */
  lemma HookInTime(w: World, id: EventId, parent: Option<EventId>, root: Option<EventId>)
    requires ParentsCurrent(w.db, w.lineage) && id !in w.lineage && Inserted(w.db, id, parent, root).Ok?
    ensures InTime(Inserting(w, id, parent, root), {id}, id) <==> (parent.Some? ==> parent.value in w.populated)
  {
    var found := Inserting(w, id, parent, root);
    ParentIsAlive(w.db, id, parent, root);
    if parent.Some? {
      assert Reach(found.lineage, id, 1) == Reach(found.lineage, parent.value, 0) == parent;
    }
  }

  lemma FeasiblePrefix(changes: seq<Change>, n: nat)
    requires Feasible(changes) && n <= |changes|
    ensures Feasible(changes[..n])
    ensures AllTimely(changes) ==> AllTimely(changes[..n])
  {
    forall i | 0 <= i < n ensures PossibleAt(changes[..n], i) && (AllTimely(changes) ==> TimelyAt(changes[..n], i)) {
      assert PossibleAt(changes, i);
      assert changes[..n][..i] == changes[..i] && changes[..n][i] == changes[i];
      assert AllTimely(changes) ==> TimelyAt(changes, i);
    }
  }

  /** Whatever the order of jobs, inserts and deletes, no row of the table is ever wrong. */
  lemma {:induction false} HistoryIsSound(changes: seq<Change>) returns (rank: map<EventId, nat>)
    requires Feasible(changes)
    ensures Standing(History(changes), rank) && Sound(History(changes))
  {
    rank := map[];
    if changes != [] {
      var n := |changes| - 1;
      FeasiblePrefix(changes, n);
      assert PossibleAt(changes, n);
      rank := HistoryIsSound(changes[..n]);
      rank := ChangeIsSound(History(changes[..n]), rank, changes[n]);
    }
  }

  /** If all rows are written in time, every populated event has exactly its rows. */
  lemma {:induction false} HistoryIsExact(changes: seq<Change>)
    requires Feasible(changes) && AllTimely(changes)
    ensures Exact(History(changes))
  {
    if changes != [] {
      var n := |changes| - 1;
      FeasiblePrefix(changes, n);
      assert PossibleAt(changes, n) && TimelyAt(changes, n);
      HistoryIsExact(changes[..n]);
      var rank := HistoryIsSound(changes[..n]);
      if Accepted(History(changes[..n]), changes[n]) {
        ExactExactlyIfTimely(History(changes[..n]), rank, changes[n]);
      }
    }
  }

  /** In a history the table is exact at all times if and only if all rows were written in time. */
  lemma AlwaysExactExactlyIfTimely(changes: seq<Change>)
    requires Feasible(changes)
    ensures (forall n :: 0 <= n <= |changes| ==> ExactAt(changes, n)) <==> AllTimely(changes)
  {
    if AllTimely(changes) {
      forall n | 0 <= n <= |changes| ensures ExactAt(changes, n) {
        FeasiblePrefix(changes, n);
        HistoryIsExact(changes[..n]);
      }
    }
    if forall n :: 0 <= n <= |changes| ==> ExactAt(changes, n) {
      forall n | 0 <= n < |changes| ensures TimelyAt(changes, n) {
        ExactThenTimely(changes, n);
      }
    }
  }

  ghost predicate ExactAt(changes: seq<Change>, n: nat)
    requires n <= |changes|
  {
    Exact(History(changes[..n]))
  }

  lemma ExactThenTimely(changes: seq<Change>, n: nat)
    requires Feasible(changes) && n < |changes| && ExactAt(changes, n) && ExactAt(changes, n + 1)
    ensures TimelyAt(changes, n)
  {
    HistoryLonger(changes, n);
    var rank := HistoryIsSound(changes[..n]);
    if Accepted(History(changes[..n]), changes[n]) {
      ExactExactlyIfTimely(History(changes[..n]), rank, changes[n]);
    }
  }

  /** Then, once every event is populated, the table is the one the hook alone would have made. */
  lemma PopulatedTableAgrees(changes: seq<Change>)
    requires Feasible(changes) && AllTimely(changes)
    requires History(changes).populated == History(changes).db.events.Keys
    ensures Agrees(History(changes).db, History(changes).lineage)
  {
    HistoryIsExact(changes);
  }

  /**
   In every history the job fails exactly when an event of its batch already has rows: because
   the job ran before, or because the hook wrote them.  Its sort never fails.
   */
  lemma PopulateFailsExactly(changes: seq<Change>, listing: seq<Listed>, order: seq<nat>)
    requires Feasible(changes) && Lists(History(changes).db.events, listing)
    ensures AllEnd(ParentsOf(ItemsOf(listing)))
    ensures Sorted(ParentsOf(ItemsOf(listing)), order) ==>
              (Accepted(History(changes), Populate(listing, order)) <==> Ids(listing) !! History(changes).populated)
  {
    var rank := HistoryIsSound(changes);
    SortNeverFails(History(changes), rank, listing);
    if Sorted(ParentsOf(ItemsOf(listing)), order) {
      BatchConflictsExactly(History(changes), rank, listing, order);
    }
  }

  // ----- what comes too early -----------------------------------------------------------

  /** The event has had its rows written, whether it survives or not. */
  predicate Settled(w: World, e: EventId) {
    e in w.populated || (e in w.lineage && e !in w.db.events)
  }

  /** The row is not there although its event has been written. */
  predicate Missing(w: World, row: ClosureRow) {
    Settled(w, row.descendant) && row !in w.db.closure
  }

  lemma MissingStays(w: World, rank: map<EventId, nat>, change: Change, row: ClosureRow)
    requires Standing(w, rank) && Sound(w) && Possible(w, change) && Missing(w, row)
    ensures Missing(Changed(w, change), row)
  {
    if Accepted(w, change) {
      match change
      case Create(id, parent, root) =>
        var longer := HookIsBatchOfOne(w, rank, id, parent, root);
      case Populate(listing, order) =>
        BatchExtended(w, rank, listing, order);
      case _ =>
    }
  }

  lemma HistoryLonger(changes: seq<Change>, n: nat)
    requires Feasible(changes) && n < |changes|
    ensures Feasible(changes[..n]) && Possible(History(changes[..n]), changes[n])
    ensures History(changes[..n + 1]) == Changed(History(changes[..n]), changes[n])
  {
    FeasiblePrefix(changes, n);
    assert PossibleAt(changes, n);
    assert changes[..n + 1][..n] == changes[..n];
  }

  lemma MissingAfterNext(changes: seq<Change>, n: nat, row: ClosureRow)
    requires Feasible(changes) && n < |changes| && Missing(History(changes[..n]), row)
    ensures Missing(History(changes[..n + 1]), row)
  {
    HistoryLonger(changes, n);
    var rank := HistoryIsSound(changes[..n]);
    MissingStays(History(changes[..n]), rank, changes[n], row);
  }

  /** A row not written with its event is never written: no later job or insert repairs it. */
  lemma {:induction false} NeverRepaired(changes: seq<Change>, n: nat, m: nat, row: ClosureRow)
    requires Feasible(changes) && n <= m <= |changes| && Missing(History(changes[..n]), row)
    ensures Missing(History(changes[..m]), row)
  {
    if n < m {
      NeverRepaired(changes, n, m - 1, row);
      MissingAfterNext(changes, m - 1, row);
    }
  }

  lemma {:induction false} Append(changes: seq<Change>, change: Change)
    requires Feasible(changes) && Possible(History(changes), change)
    ensures Feasible(changes + [change]) && History(changes + [change]) == Changed(History(changes), change)
  {
    var longer := changes + [change];
    assert longer[..|changes|] == changes;
    forall i | 0 <= i < |longer| ensures PossibleAt(longer, i) {
      if i < |changes| {
        assert PossibleAt(changes, i);
        assert longer[..i] == changes[..i];
      }
    }
  }

  /** One event alone is sorted. */
  lemma SingleSorted(e: EventId, parent: Option<EventId>)
    requires parent != Some(e)
    ensures Sorted(ParentsOf(ItemsOf([Listed(e, parent)])), [0])
  {
    var listing := [Listed(e, parent)];
    var ps := ParentsOf(ItemsOf(listing));
    if ps[0].Some? {
      ParentPosition(listing, 0, ps[0].value);
      assert false;
    }
  }

  /** One new event, whose parent is there, can be ingested. */
  lemma ArrivalPossible(w: World, e: EventId, parent: Option<EventId>)
    requires e !in w.lineage && parent != Some(e) && (parent.Some? ==> parent.value in w.db.events)
    ensures var rows := map[e := EventRow(parent, None)];
            var change := Ingest(rows, [Listed(e, parent)], [0]);
            Possible(w, change) && Changed(w, change) == WithEvents(w, rows)
  {
    SingleSorted(e, parent);
    assert Ids([Listed(e, parent)]) == {e};
  }

  lemma ArriveAlone(changes: seq<Change>, e: EventId, parent: Option<EventId>) returns (longer: seq<Change>)
    requires Feasible(changes) && e !in History(changes).lineage && parent != Some(e)
    requires parent.Some? ==> parent.value in History(changes).db.events
    ensures Feasible(longer)
    ensures History(longer) == WithEvents(History(changes), map[e := EventRow(parent, None)])
  {
    var change := Ingest(map[e := EventRow(parent, None)], [Listed(e, parent)], [0]);
    ArrivalPossible(History(changes), e, parent);
    Append(changes, change);
    longer := changes + [change];
  }

  /** The job for one event, and what it does to one row. */
  lemma PopulateAlone(changes: seq<Change>, e: EventId, row: ClosureRow) returns (longer: seq<Change>)
    requires Feasible(changes) && e in History(changes).db.events && e !in History(changes).populated
    requires History(changes).db.events[e].parent != Some(e)
    ensures var w := History(changes);
            && Feasible(longer)
            && History(longer).db.events == w.db.events && History(longer).lineage == w.lineage
            && History(longer).populated == w.populated + {e}
    ensures var events, before := History(changes).db.events, History(changes).db.closure;
            row in History(longer).db.closure <==>
            if row.descendant == e then row == Own(e) || (Above(events, row).Some? && Above(events, row).value in before)
            else row in before
  {
    var w := History(changes);
    var listing := [Listed(e, w.db.events[e].parent)];
    SingleSorted(e, w.db.events[e].parent);
    assert Ids(listing) == {e};
    PopulateFailsExactly(changes, listing, [0]);
    var rank := HistoryIsSound(changes);
    BatchExtended(w, rank, listing, [0]);
    Append(changes, Populate(listing, [0]));
    longer := changes + [Populate(listing, [0])];
  }

  /** Two events, the second a child of the first. */
  predicate Family(w: World, p: EventId, c: EventId) {
    && w.db.events.Keys == w.lineage.Keys == {p, c}
    && w.db.events[p].parent == w.lineage[p] == None
    && w.db.events[c].parent == w.lineage[c] == Some(p)
  }

  lemma FamilyArrived(p: EventId, c: EventId) returns (changes: seq<Change>)
    requires p != c
    ensures Feasible(changes) && Family(History(changes), p, c)
    ensures History(changes).db.closure == {} && History(changes).populated == {}
  {
    var first := ArriveAlone([], p, None);
    changes := ArriveAlone(first, c, Some(p));
  }

  lemma ChildExpected(w: World, p: EventId, c: EventId)
    requires Family(w, p, c)
    ensures Expected(w.db, w.lineage, ClosureRow(p, c, 1))
  {
    assert Reach(w.lineage, p, 0) == Some(p);
  }

  lemma ChildPopulatedFirst(p: EventId, c: EventId) returns (changes: seq<Change>)
    requires p != c
    ensures Feasible(changes) && Family(History(changes), p, c)
    ensures History(changes).populated == {c} && ClosureRow(p, c, 1) !in History(changes).db.closure
  {
    var arrived := FamilyArrived(p, c);
    changes := PopulateAlone(arrived, c, ClosureRow(p, c, 1));
  }

  /** The job of a child's batch runs before its parent's: both are populated, the pair is missing. */
  lemma ChildBeforeParent(p: EventId, c: EventId) returns (changes: seq<Change>)
    requires p != c
    ensures Feasible(changes) && Family(History(changes), p, c) && History(changes).populated == {p, c}
    ensures Expected(History(changes).db, History(changes).lineage, ClosureRow(p, c, 1))
    ensures ClosureRow(p, c, 1) !in History(changes).db.closure
  {
    var early := ChildPopulatedFirst(p, c);
    changes := PopulateAlone(early, p, ClosureRow(p, c, 1));
    ChildExpected(History(changes), p, c);
  }
}
