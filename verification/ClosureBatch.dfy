/** The batch job: `populate_event_closures_batch` of server/rapidly/analytics/event/actions.py. */
module ClosureBatch {
  import opened Prelude
  import opened EventTables
  import opened TopologicalSort
  import opened ClosureWorld

  /** What the query for ids and parents returns of an event. */
  datatype Listed = Listed(id: EventId, parent: Option<EventId>)

  function ItemsOf(listing: seq<Listed>): (items: seq<Item>)
    ensures |items| == |listing|
  {
    seq(|listing|, i requires 0 <= i < |listing| => ItemOf(listing[i]))
  }

  function ItemOf(entry: Listed): Item {
    Item(Some(Uuid(entry.id)), None, if entry.parent.Some? then Some(Uuid(entry.parent.value)) else None)
  }

  predicate DistinctIds(listing: seq<Listed>) {
    forall i, j :: 0 <= i < j < |listing| ==> listing[i].id != listing[j].id
  }

  function Ids(listing: seq<Listed>): set<EventId> {
    set entry | entry in listing :: entry.id
  }

  /** A query result over these events, in whatever order. */
  predicate Lists(events: map<EventId, EventRow>, listing: seq<Listed>) {
    && DistinctIds(listing)
    && forall i :: 0 <= i < |listing| ==> listing[i].id in events && listing[i].parent == events[listing[i].id].parent
  }

  /** A parent in the batch is found at its position, any other is not found. */
  lemma ParentPosition(listing: seq<Listed>, i: nat, p: nat)
    requires DistinctIds(listing) && i < |listing|
    ensures ParentsOf(ItemsOf(listing))[i] == Some(p) <==>
            p < |listing| && listing[i].parent == Some(listing[p].id)
  {
    var items := ItemsOf(listing);
    if listing[i].parent.Some? {
      LocatedIs(items, Uuid(listing[i].parent.value), p);
    }
  }

  // ----- the rows of a batch ------------------------------------------------------------

  function IdsAt(listing: seq<Listed>, order: seq<nat>): set<EventId>
    requires Below(order, |listing|)
  {
    set a | 0 <= a < |order| :: listing[order[a]].id
  }

  /** The rows an event inherits: from the batch when its parent is of it, else from the table. */
  function Inherited(closure: set<ClosureRow>, batch: set<ClosureRow>, done: set<EventId>, entry: Listed): set<ClosureRow> {
    if entry.parent.None? then {}
    else Propagated(if entry.parent.value in done then batch else closure, entry.id, entry.parent.value)
  }

  /** The rows written for the listed events, taken in this order. */
  function RowsOf(closure: set<ClosureRow>, listing: seq<Listed>, order: seq<nat>): set<ClosureRow>
    requires Below(order, |listing|)
  {
    if order == [] then {}
    else
      var past := order[..|order| - 1];
      var entry := listing[order[|order| - 1]];
      var batch := RowsOf(closure, listing, past);
      batch + {Own(entry.id)} + Inherited(closure, batch, IdsAt(listing, past), entry)
  }

  /** An order that visits events once, each after its parent if that is of the batch. */
  ghost predicate Visits(listing: seq<Listed>, order: seq<nat>) {
    NoRepeats(order) && Below(order, |listing|) && ParentsFirst(ParentsOf(ItemsOf(listing)), order)
  }

  lemma VisitsPrefix(listing: seq<Listed>, order: seq<nat>, n: nat)
    requires Visits(listing, order) && n <= |order|
    ensures Visits(listing, order[..n])
  {
    var ps := ParentsOf(ItemsOf(listing));
    forall a | 0 <= a < n ensures ParentBefore(ps, order[..n], a) {
      assert ParentBefore(ps, order, a);
      assert order[..n][..a] == order[..a];
    }
  }

  /** The parent of a visited event is visited before it or not of the batch. */
  lemma ParentVisited(listing: seq<Listed>, order: seq<nat>, a: nat)
    requires DistinctIds(listing) && Visits(listing, order) && a < |order|
    requires listing[order[a]].parent.Some?
    ensures var p := listing[order[a]].parent.value;
            p in Ids(listing) ==> p in IdsAt(listing, order[..a])
  {
    VisitsPrefix(listing, order, a);
    var ps := ParentsOf(ItemsOf(listing));
    var p := listing[order[a]].parent.value;
    if p in Ids(listing) {
      var j :| 0 <= j < |listing| && listing[j].id == p;
      ParentPosition(listing, order[a], j);
      assert ParentBefore(ps, order, a);
      var b :| 0 <= b < a && order[..a][b] == j;
    }
  }

  /** The new rows of a step belong to the event visited. */
  lemma StepRows(closure: set<ClosureRow>, listing: seq<Listed>, order: seq<nat>, row: ClosureRow)
    requires Below(order, |listing|) && order != []
    ensures var n := |order| - 1;
            var before, entry := RowsOf(closure, listing, order[..n]), listing[order[n]];
            row in RowsOf(closure, listing, order) <==>
            || row in before
            || row == Own(entry.id)
            || (row.descendant == entry.id && entry.parent.Some? &&
                ClosureRow(row.ancestor, entry.parent.value, row.depth - 1) in
                (if entry.parent.value in IdsAt(listing, order[..n]) then before else closure))
  {
    var n := |order| - 1;
    var before, entry := RowsOf(closure, listing, order[..n]), listing[order[n]];
    if entry.parent.Some? {
      var source := if entry.parent.value in IdsAt(listing, order[..n]) then before else closure;
      var above := ClosureRow(row.ancestor, entry.parent.value, row.depth - 1);
      assert row in Propagated(source, entry.id, entry.parent.value) <==> row.descendant == entry.id && above in source;
    }
  }

  lemma {:induction false} RowsBelong(closure: set<ClosureRow>, listing: seq<Listed>, order: seq<nat>, row: ClosureRow)
    requires Below(order, |listing|) && row in RowsOf(closure, listing, order)
    ensures row.descendant in IdsAt(listing, order)
  {
    var n := |order| - 1;
    StepRows(closure, listing, order, row);
    IdsAtLonger(listing, order);
    if row in RowsOf(closure, listing, order[..n]) {
      RowsBelong(closure, listing, order[..n], row);
    }
  }

  lemma IdsAtLonger(listing: seq<Listed>, order: seq<nat>)
    requires Below(order, |listing|) && order != []
    ensures var n := |order| - 1;
            IdsAt(listing, order) == IdsAt(listing, order[..n]) + {listing[order[n]].id}
  {
    var n := |order| - 1;
    forall e | e in IdsAt(listing, order[..n]) ensures e in IdsAt(listing, order) {
      var a :| 0 <= a < n && listing[order[..n][a]].id == e;
      assert listing[order[a]].id == e;
    }
    forall e | e in IdsAt(listing, order) ensures e in IdsAt(listing, order[..n]) + {listing[order[n]].id} {
      var a :| 0 <= a < |order| && listing[order[a]].id == e;
      if a < n {
        assert order[..n][a] == order[a];
      }
    }
  }

  /** No event of the batch has rows yet. */
  predicate Unpopulated(closure: set<ClosureRow>, batch: set<EventId>) {
    forall row :: row in closure ==> row.descendant !in batch
  }

  lemma IdsAtListed(listing: seq<Listed>, order: seq<nat>)
    requires Below(order, |listing|)
    ensures IdsAt(listing, order) <= Ids(listing)
  {
    forall e | e in IdsAt(listing, order) ensures e in Ids(listing) {
      var a :| 0 <= a < |order| && listing[order[a]].id == e;
      assert listing[order[a]] in listing;
    }
  }

  /** The rows of the event visited last are its own and those its parent has by now. */
  lemma LastRowsDerived(events: map<EventId, EventRow>, closure: set<ClosureRow>, listing: seq<Listed>, order: seq<nat>, row: ClosureRow)
    requires Lists(events, listing) && Unpopulated(closure, Ids(listing)) && Visits(listing, order)
    requires order != [] && row.descendant == listing[order[|order| - 1]].id
    ensures row in RowsOf(closure, listing, order) <==> Derived(events, closure + RowsOf(closure, listing, order), row)
  {
    var n := |order| - 1;
    var past, entry := order[..n], listing[order[n]];
    var before, rows := RowsOf(closure, listing, past), RowsOf(closure, listing, order);
    NotVisitedBefore(listing, order);
    StepRows(closure, listing, order, row);
    if row in before {
      RowsBelong(closure, listing, past, row);
    }
    if entry.parent.Some? {
      var p := entry.parent.value;
      var above := ClosureRow(row.ancestor, p, row.depth - 1);
      ParentVisited(listing, order, n);
      IdsAtListed(listing, order);
      IdsAtLonger(listing, order);
      StepRows(closure, listing, order, above);
      if above in rows {
        RowsBelong(closure, listing, order, above);
      }
      if above in before {
        RowsBelong(closure, listing, past, above);
      }
      OwnParent(listing, order, n);
    }
  }

  lemma NotVisitedBefore(listing: seq<Listed>, order: seq<nat>)
    requires DistinctIds(listing) && Visits(listing, order) && order != []
    ensures listing[order[|order| - 1]].id !in IdsAt(listing, order[..|order| - 1])
  {
    var n := |order| - 1;
    forall a | 0 <= a < n ensures listing[order[..n][a]].id != listing[order[n]].id {
      assert order[..n][a] == order[a] != order[n];
    }
  }

  /** No visited event is the parent of one visited before it, or of itself. */
  lemma OwnParent(listing: seq<Listed>, order: seq<nat>, a: nat)
    requires DistinctIds(listing) && Visits(listing, order) && a < |order|
    ensures listing[order[a]].parent != Some(listing[order[|order| - 1]].id)
  {
    var n := |order| - 1;
    assert ParentBefore(ParentsOf(ItemsOf(listing)), order, a);
    if listing[order[a]].parent == Some(listing[order[n]].id) {
      ParentPosition(listing, order[a], order[n]);
      assert false;
    }
  }

  lemma {:induction false} RowsDerived(events: map<EventId, EventRow>, closure: set<ClosureRow>, listing: seq<Listed>, order: seq<nat>, row: ClosureRow)
    requires Lists(events, listing) && Unpopulated(closure, Ids(listing)) && Visits(listing, order)
    requires row.descendant in IdsAt(listing, order)
    ensures row in RowsOf(closure, listing, order) <==> Derived(events, closure + RowsOf(closure, listing, order), row)
  {
    var n := |order| - 1;
    if row.descendant == listing[order[n]].id {
      LastRowsDerived(events, closure, listing, order, row);
    } else {
      var a :| 0 <= a < |order| && listing[order[a]].id == row.descendant;
      VisitsPrefix(listing, order, n);
      IdsAtLonger(listing, order);
      RowsDerived(events, closure, listing, order[..n], row);
      StepRows(closure, listing, order, row);
      OwnParent(listing, order, a);
      if Above(events, row).Some? {
        StepRows(closure, listing, order, Above(events, row).value);
      }
    }
  }

  /** The batch job extends the table as the hook would: each event by its own row and its parent's. */
  lemma BatchExtends(events: map<EventId, EventRow>, closure: set<ClosureRow>, listing: seq<Listed>, order: seq<nat>)
    requires Lists(events, listing) && Unpopulated(closure, Ids(listing))
    requires Sorted(ParentsOf(ItemsOf(listing)), order)
    ensures Extends(events, closure, closure + RowsOf(closure, listing, order), Ids(listing))
  {
    AllVisited(listing, order);
    var rows := RowsOf(closure, listing, order);
    forall row
      ensures row in closure + rows <==>
              if row.descendant in Ids(listing) then Derived(events, closure + rows, row) else row in closure
    {
      if row.descendant in Ids(listing) {
        RowsDerived(events, closure, listing, order, row);
      } else if row in rows {
        RowsBelong(closure, listing, order, row);
      }
    }
  }

  lemma AllVisited(listing: seq<Listed>, order: seq<nat>)
    requires Sorted(ParentsOf(ItemsOf(listing)), order)
    ensures Visits(listing, order) && IdsAt(listing, order) == Ids(listing)
  {
    assert forall a :: 0 <= a < |order| ==> order[a] in order;
    IdsAtListed(listing, order);
    forall e | e in Ids(listing) ensures e in IdsAt(listing, order) {
      var j :| 0 <= j < |listing| && listing[j].id == e;
      assert j in order;
      var a :| 0 <= a < |order| && order[a] == j;
    }
  }

  // ----- the job ------------------------------------------------------------------------

  /** An ancestor and its depth. */
  type Ancestry = (EventId, int)

  predicate Distinct<T(==)>(s: seq<T>) {
    forall i, j :: 0 <= i < j < |s| ==> s[i] != s[j]
  }

  predicate NonNegative(rows: set<ClosureRow>) {
    forall r :: r in rows ==> 0 <= r.depth
  }

  /** The ancestors of `e` in these rows, each listed once. */
  ghost predicate Enumerates(list: seq<Ancestry>, rows: set<ClosureRow>, e: EventId) {
    Distinct(list) && forall a: Ancestry :: a in list <==> ClosureRow(a.0, e, a.1) in rows
  }

  /** The rows as a list without repetition. */
  ghost predicate Entered(entries: seq<ClosureRow>, rows: set<ClosureRow>) {
    Distinct(entries) && forall r :: r in entries <==> r in rows
  }

  method GetAncestorClosures(closure: set<ClosureRow>, e: EventId) returns (list: seq<Ancestry>)
    ensures Enumerates(list, closure, e)
  {
    list := [];
    var rest := closure;
    while rest != {}
      invariant rest <= closure
      invariant Enumerates(list, closure - rest, e)
      decreases |rest|
    {
      var r :| r in rest;
      rest := rest - {r};
      if r.descendant == e {
        assert (r.ancestor, r.depth) !in list;
        list := list + [(r.ancestor, r.depth)];
      }
    }
    assert closure - rest == closure;
  }

  /** Appends the parent's ancestors, one deeper, to the event's list and to the rows to insert. */
  method Inherit(parents: seq<Ancestry>, e: EventId, own: seq<Ancestry>, entries: seq<ClosureRow>)
    returns (list: seq<Ancestry>, longer: seq<ClosureRow>)
    ensures list == own + Deeper(parents) && longer == entries + AsRows(Deeper(parents), e)
  {
    list, longer := own, entries;
    for i := 0 to |parents|
      invariant list == own + Deeper(parents)[..i]
      invariant longer == entries + AsRows(Deeper(parents), e)[..i]
    {
      list := list + [(parents[i].0, parents[i].1 + 1)];
      longer := longer + [ClosureRow(parents[i].0, e, parents[i].1 + 1)];
    }
  }

  function Deeper(parents: seq<Ancestry>): (s: seq<Ancestry>)
    ensures |s| == |parents|
  {
    seq(|parents|, i requires 0 <= i < |parents| => (parents[i].0, parents[i].1 + 1))
  }

  function AsRows(list: seq<Ancestry>, e: EventId): (s: seq<ClosureRow>)
    ensures |s| == |list|
  {
    seq(|list|, i requires 0 <= i < |list| => ClosureRow(list[i].0, e, list[i].1))
  }

  predicate Of(rows: set<ClosureRow>, e: EventId) {
    forall r :: r in rows ==> r.descendant == e
  }

  /** The new rows of `e`, when it inherits the listed ancestors of `parent`. */
  function Grown(source: set<ClosureRow>, parent: EventId, e: EventId): set<ClosureRow> {
    {Own(e)} + Propagated(source, e, parent)
  }

  lemma GrownIs(source: set<ClosureRow>, parent: EventId, e: EventId, r: ClosureRow)
    ensures r in Grown(source, parent, e) <==>
            r == Own(e) || (r.descendant == e && ClosureRow(r.ancestor, parent, r.depth - 1) in source)
  {
    var above := ClosureRow(r.ancestor, parent, r.depth - 1);
    assert above in source && r.descendant == e ==> r in Propagated(source, e, parent);
  }

  lemma GrownDistinct(source: set<ClosureRow>, parent: EventId, parents: seq<Ancestry>, e: EventId)
    requires Enumerates(parents, source, parent) && NonNegative(source)
    ensures Distinct([(e, 0)] + Deeper(parents))
  {
    var list := [(e, 0)] + Deeper(parents);
    forall i, j | 0 <= i < j < |list| ensures list[i] != list[j] {
      assert parents[j - 1] in parents;
      assert ClosureRow(parents[j - 1].0, parent, parents[j - 1].1) in source;
      if 0 < i {
        assert parents[i - 1] != parents[j - 1];
      }
    }
  }

  lemma DeeperIs(parents: seq<Ancestry>, a: Ancestry)
    ensures a in Deeper(parents) <==> (a.0, a.1 - 1) in parents
  {
    if i :| 0 <= i < |parents| && parents[i] == (a.0, a.1 - 1) {
      assert Deeper(parents)[i] == a;
    }
  }

  lemma AsRowsIs(list: seq<Ancestry>, e: EventId, r: ClosureRow)
    ensures r in AsRows(list, e) <==> r.descendant == e && (r.ancestor, r.depth) in list
  {
    if r.descendant == e {
      if i :| 0 <= i < |list| && list[i] == (r.ancestor, r.depth) {
        assert AsRows(list, e)[i] == r;
      }
    }
  }

  lemma GrownListed(source: set<ClosureRow>, parent: EventId, parents: seq<Ancestry>, e: EventId)
    requires Enumerates(parents, source, parent) && NonNegative(source)
    ensures Enumerates([(e, 0)] + Deeper(parents), Grown(source, parent, e), e)
    ensures NonNegative(Grown(source, parent, e)) && Of(Grown(source, parent, e), e)
  {
    GrownDistinct(source, parent, parents, e);
    forall a: Ancestry
      ensures a in [(e, 0)] + Deeper(parents) <==> ClosureRow(a.0, e, a.1) in Grown(source, parent, e)
    {
      GrownIs(source, parent, e, ClosureRow(a.0, e, a.1));
      DeeperIs(parents, a);
    }
  }

  /** Rows of a new event, listed, behind the rows of others. */
  lemma EnteredMore(entries: seq<ClosureRow>, before: set<ClosureRow>, list: seq<Ancestry>, added: set<ClosureRow>, e: EventId)
    requires Entered(entries, before) && Enumerates(list, added, e)
    requires forall r :: r in before ==> r.descendant != e
    requires Of(added, e)
    ensures Entered(entries + AsRows(list, e), before + added)
  {
    var more := AsRows(list, e);
    forall r ensures r in more <==> r in added {
      AsRowsIs(list, e, r);
    }
    assert Distinct(more) by {
      forall i, j | 0 <= i < j < |more| ensures more[i] != more[j] {
        assert list[i] != list[j];
      }
    }
    forall i, j | 0 <= i < |entries| && 0 <= j < |more| ensures entries[i] != more[j] {
      assert entries[i] in entries && more[j] in more;
    }
  }

  /** What the loop of the job has collected. */
  ghost predicate Collected(entries: seq<ClosureRow>, lists: map<EventId, seq<Ancestry>>, rows: set<ClosureRow>, done: set<EventId>) {
    && lists.Keys == done
    && (forall e :: e in lists ==> Enumerates(lists[e], rows, e))
    && (forall r :: r in rows ==> r.descendant in done)
    && Entered(entries, rows) && NonNegative(rows)
  }

  lemma CollectedMore(entries: seq<ClosureRow>, lists: map<EventId, seq<Ancestry>>, rows: set<ClosureRow>, done: set<EventId>,
                      e: EventId, list: seq<Ancestry>, added: set<ClosureRow>)
    requires Collected(entries, lists, rows, done) && e !in done
    requires Enumerates(list, added, e) && NonNegative(added) && Of(added, e)
    ensures Collected(entries + AsRows(list, e), lists[e := list], rows + added, done + {e})
  {
    EnteredMore(entries, rows, list, added, e);
  }

  /** Adds the rows of the event visited next. */
  method AddEvent(closure: set<ClosureRow>, entry: Listed, entries: seq<ClosureRow>, lists: map<EventId, seq<Ancestry>>,
                  ghost listing: seq<Listed>, ghost order: seq<nat>, ghost m: nat)
    returns (longer: seq<ClosureRow>, more: map<EventId, seq<Ancestry>>)
    requires DistinctIds(listing) && Visits(listing, order) && m < |order| && NonNegative(closure)
    requires entry == listing[order[m]]
    requires Below(order[..m], |listing|) && Collected(entries, lists, RowsOf(closure, listing, order[..m]), IdsAt(listing, order[..m]))
    ensures Below(order[..m + 1], |listing|)
    ensures Collected(longer, more, RowsOf(closure, listing, order[..m + 1]), IdsAt(listing, order[..m + 1]))
  {
    var own: seq<Ancestry> := [(entry.id, 0)];
    longer := entries + [Own(entry.id)];
    OwnFirst(entry.id);
    if entry.parent.Some? {
      var parents := ParentAncestors(closure, lists, entry.parent.value, RowsOf(closure, listing, order[..m]));
      VisitChild(closure, listing, order, m, entries, lists, parents);
      var list: seq<Ancestry>;
      list, longer := Inherit(parents, entry.id, own, longer);
      AssociateRows(entries, parents, entry.id);
      more := lists[entry.id := list];
    } else {
      VisitRoot(closure, listing, order, m, entries, lists);
      more := lists[entry.id := own];
    }
  }

  /** The parent's ancestors: from memory if the batch has them, else from the table. */
  method ParentAncestors(closure: set<ClosureRow>, lists: map<EventId, seq<Ancestry>>, parent: EventId, ghost rows: set<ClosureRow>)
    returns (parents: seq<Ancestry>)
    requires parent in lists ==> Enumerates(lists[parent], rows, parent)
    ensures Enumerates(parents, if parent in lists then rows else closure, parent)
  {
    if parent in lists {
      parents := lists[parent];
    } else {
      parents := GetAncestorClosures(closure, parent);
    }
  }

  lemma OwnFirst(e: EventId)
    ensures AsRows([(e, 0)], e) == [Own(e)]
  {
  }

  lemma AssociateRows(entries: seq<ClosureRow>, parents: seq<Ancestry>, e: EventId)
    ensures entries + [Own(e)] + AsRows(Deeper(parents), e) == entries + AsRows([(e, 0)] + Deeper(parents), e)
  {
    assert AsRows([(e, 0)] + Deeper(parents), e) == [Own(e)] + AsRows(Deeper(parents), e);
  }

  /**
   Writes the rows of the listed events: none when parents form a cycle or a row's key is taken,
   else each once.
   */
  method PopulateEventClosuresBatch(store: EventStore, listing: seq<Listed>) returns (ok: bool, ghost order: seq<nat>)
    requires DistinctIds(listing) && NonNegative(store.closure)
    modifies store`closure
    ensures ok ==> AllEnd(ParentsOf(ItemsOf(listing)))
    ensures AllEnd(ParentsOf(ItemsOf(listing))) ==>
              && Sorted(ParentsOf(ItemsOf(listing)), order)
              && (ok <==> !Conflicts(old(store.closure), RowsOf(old(store.closure), listing, order)))
              && (ok ==> store.closure == old(store.closure) + RowsOf(old(store.closure), listing, order))
    ensures !ok ==> store.closure == old(store.closure)
  {
    order := [];
    var sorted := TopologicalSortEvents(ItemsOf(listing));
    if sorted.Err? {
      ok := false;
      return;
    }
    var positions := sorted.value;
    order := positions;
    AllVisited(listing, order);
    var entries := CollectRows(store.closure, listing, positions);
    var added := set r | r in entries;
    assert added == RowsOf(store.closure, listing, order);
    ok := store.InsertClosure(added);
  }

  /** All rows of the batch, in a list without repetition. */
  method CollectRows(closure: set<ClosureRow>, listing: seq<Listed>, positions: seq<nat>) returns (entries: seq<ClosureRow>)
    requires DistinctIds(listing) && Visits(listing, positions) && NonNegative(closure)
    ensures Entered(entries, RowsOf(closure, listing, positions))
  {
    var lists: map<EventId, seq<Ancestry>> := map[];
    entries := [];
    for m := 0 to |positions|
      invariant Below(positions[..m], |listing|)
      invariant Collected(entries, lists, RowsOf(closure, listing, positions[..m]), IdsAt(listing, positions[..m]))
    {
      entries, lists := AddEvent(closure, listing[positions[m]], entries, lists, listing, positions, m);
    }
    assert positions[..|positions|] == positions;
  }

  /** One visit to an event without parent. */
  lemma VisitRoot(closure: set<ClosureRow>, listing: seq<Listed>, order: seq<nat>, m: nat,
                  entries: seq<ClosureRow>, lists: map<EventId, seq<Ancestry>>)
    requires DistinctIds(listing) && Visits(listing, order) && m < |order|
    requires Collected(entries, lists, RowsOf(closure, listing, order[..m]), IdsAt(listing, order[..m]))
    requires listing[order[m]].parent.None?
    ensures var e := listing[order[m]].id;
            Collected(entries + AsRows([(e, 0)], e), lists[e := [(e, 0)]],
                      RowsOf(closure, listing, order[..m + 1]), IdsAt(listing, order[..m + 1]))
  {
    var e := listing[order[m]].id;
    NextVisit(closure, listing, order, m);
    CollectedMore(entries, lists, RowsOf(closure, listing, order[..m]), IdsAt(listing, order[..m]), e, [(e, 0)], {Own(e)});
  }

  /** One visit to an event whose parent's ancestors are listed. */
  lemma VisitChild(closure: set<ClosureRow>, listing: seq<Listed>, order: seq<nat>, m: nat,
                   entries: seq<ClosureRow>, lists: map<EventId, seq<Ancestry>>, parents: seq<Ancestry>)
    requires DistinctIds(listing) && Visits(listing, order) && m < |order| && NonNegative(closure)
    requires Collected(entries, lists, RowsOf(closure, listing, order[..m]), IdsAt(listing, order[..m]))
    requires listing[order[m]].parent.Some?
    requires var p := listing[order[m]].parent.value;
             Enumerates(parents, if p in lists then RowsOf(closure, listing, order[..m]) else closure, p)
    ensures var e := listing[order[m]].id;
            var list := [(e, 0)] + Deeper(parents);
            Collected(entries + AsRows(list, e), lists[e := list],
                      RowsOf(closure, listing, order[..m + 1]), IdsAt(listing, order[..m + 1]))
  {
    var entry, rows := listing[order[m]], RowsOf(closure, listing, order[..m]);
    var p := entry.parent.value;
    var source := if p in lists then rows else closure;
    NextVisit(closure, listing, order, m);
    GrownListed(source, p, parents, entry.id);
    CollectedMore(entries, lists, rows, IdsAt(listing, order[..m]), entry.id, [(entry.id, 0)] + Deeper(parents), Grown(source, p, entry.id));
  }

  lemma NextVisit(closure: set<ClosureRow>, listing: seq<Listed>, order: seq<nat>, m: nat)
    requires DistinctIds(listing) && Visits(listing, order) && m < |order|
    ensures Below(order[..m], |listing|) && Below(order[..m + 1], |listing|)
    ensures var entry, rows, done := listing[order[m]], RowsOf(closure, listing, order[..m]), IdsAt(listing, order[..m]);
            && entry.id !in done
            && IdsAt(listing, order[..m + 1]) == done + {entry.id}
            && RowsOf(closure, listing, order[..m + 1]) == rows +
                 if entry.parent.None? then {Own(entry.id)}
                 else Grown(if entry.parent.value in done then rows else closure, entry.parent.value, entry.id)
  {
    var next := order[..m + 1];
    assert next[..m] == order[..m] && next[m] == order[m];
    VisitsPrefix(listing, order, m + 1);
    NotVisitedBefore(listing, next);
    IdsAtLonger(listing, next);
  }
}
