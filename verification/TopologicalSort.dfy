/**
 The sort of server/rapidly/analytics/event/actions.py that puts parents before children:
 Kahn's algorithm on events of which each names at most one parent.
 */
module TopologicalSort {
  import opened Prelude
  import opened NatSets

  /** Events are referred to by UUID or by external id, in one dictionary. */
  datatype Key = Uuid(number: int) | External(text: string)

  datatype Item = Item(id: Option<Key>, externalId: Option<Key>, parent: Option<Key>)

  datatype SortError = CircularDependency

  // ----- who is whose parent ------------------------------------------------------------

  predicate Answers(item: Item, key: Key) {
    item.id == Some(key) || item.externalId == Some(key)
  }

  /** Of several items that answer to a key the last one counts. */
  function Located(items: seq<Item>, key: Key): (r: Option<nat>)
    ensures r.Some? ==> r.value < |items|
  {
    if items == [] then None
    else if Answers(items[|items| - 1], key) then Some(|items| - 1)
    else Located(items[..|items| - 1], key)
  }

  lemma {:induction false} LocatedIs(items: seq<Item>, key: Key, i: nat)
    ensures Located(items, key) == Some(i) <==>
            i < |items| && Answers(items[i], key) && forall j :: i < j < |items| ==> !Answers(items[j], key)
  {
    if items != [] {
      LocatedIs(items[..|items| - 1], key, i);
    }
  }

  /** An empty external id counts as no parent. */
  function ParentOf(items: seq<Item>, item: Item): Option<nat> {
    if item.parent.None? || item.parent.value == External("") then None else Located(items, item.parent.value)
  }

  /** The parent of each position, a position itself. */
  type Parents = seq<Option<nat>>

  predicate Inside(ps: Parents) {
    forall i :: 0 <= i < |ps| && ps[i].Some? ==> ps[i].value < |ps|
  }

  function ParentsOf(items: seq<Item>): (ps: Parents)
    ensures |ps| == |items| && Inside(ps)
    ensures forall i :: 0 <= i < |items| ==> ps[i] == ParentOf(items, items[i])
  {
    seq(|items|, i requires 0 <= i < |items| => ParentOf(items, items[i]))
  }

  /**
   An event's parent is the last item that has the key it names, be that a UUID or an external id
   other than the empty one, as its id or as its external id.
   */
  lemma ParentsExactly(items: seq<Item>, i: nat, p: nat)
    requires i < |items|
    ensures ParentsOf(items)[i] == Some(p) <==>
            && items[i].parent.Some? && items[i].parent != Some(External(""))
            && p < |items|
            && (items[p].id == items[i].parent || items[p].externalId == items[i].parent)
            && forall j :: p < j < |items| ==> items[j].id != items[i].parent && items[j].externalId != items[i].parent
  {
    if items[i].parent.Some? {
      LocatedIs(items, items[i].parent.value, p);
    }
  }

  /** The position `k` parents above `i`. */
  function Up(ps: Parents, i: nat, k: nat): Option<nat>
    requires Inside(ps) && i < |ps|
    decreases k
  {
    if k == 0 then Some(i) else if ps[i].None? then None else Up(ps, ps[i].value, k - 1)
  }

  /** The chain of parents comes to an end; on a cycle, or below one, it does not. */
  ghost predicate Ends(ps: Parents, i: nat)
    requires Inside(ps) && i < |ps|
  {
    exists k: nat :: Up(ps, i, k).None?
  }

  ghost predicate AllEnd(ps: Parents)
    requires Inside(ps)
  {
    forall i :: 0 <= i < |ps| ==> Ends(ps, i)
  }

  // ----- breadth first ------------------------------------------------------------------

  /** The positions below `n` with the given parent, in order. */
  function Having(ps: Parents, parent: Option<nat>, n: nat): seq<nat>
    requires n <= |ps|
  {
    if n == 0 then []
    else Having(ps, parent, n - 1) + (if ps[n - 1] == parent then [n - 1] else [])
  }

  function Roots(ps: Parents): seq<nat> {
    Having(ps, None, |ps|)
  }

  function Children(ps: Parents, p: nat): seq<nat> {
    Having(ps, Some(p), |ps|)
  }

  /** The children of the given positions, parent by parent. */
  function Offspring(ps: Parents, order: seq<nat>): seq<nat> {
    if order == [] then [] else Offspring(ps, order[..|order| - 1]) + Children(ps, order[|order| - 1])
  }

  lemma {:induction false} HavingIs(ps: Parents, parent: Option<nat>, n: nat, i: nat)
    requires n <= |ps|
    ensures i in Having(ps, parent, n) <==> i < n && ps[i] == parent
  {
    if n > 0 {
      HavingIs(ps, parent, n - 1, i);
    }
  }

  lemma {:induction false} HavingInOrder(ps: Parents, parent: Option<nat>, n: nat)
    requires n <= |ps|
    ensures var s := Having(ps, parent, n);
            && NoRepeats(s) && Below(s, n)
            && (forall a :: 0 <= a < |s| ==> ps[s[a]] == parent)
            && (forall a, b :: 0 <= a < b < |s| ==> s[a] < s[b])
  {
    if n > 0 {
      HavingInOrder(ps, parent, n - 1);
    }
  }

  lemma {:induction false} OffspringIs(ps: Parents, order: seq<nat>, i: nat)
    ensures i in Offspring(ps, order) <==> i < |ps| && ps[i].Some? && ps[i].value in order
  {
    if order != [] {
      var n := |order| - 1;
      OffspringIs(ps, order[..n], i);
      HavingIs(ps, Some(order[n]), |ps|, i);
      assert order == order[..n] + [order[n]];
    }
  }

  predicate NoRepeats(s: seq<nat>) {
    forall a, b :: 0 <= a < b < |s| ==> s[a] != s[b]
  }

  predicate Below(s: seq<nat>, n: nat) {
    forall a :: 0 <= a < |s| ==> s[a] < n
  }

  /** Every position comes after its parent's. */
  ghost predicate ParentsFirst(ps: Parents, order: seq<nat>) {
    forall a :: 0 <= a < |order| ==> ParentBefore(ps, order, a)
  }

  predicate ParentBefore(ps: Parents, order: seq<nat>, a: nat)
    requires a < |order|
  {
    order[a] < |ps| && ps[order[a]].Some? ==> ps[order[a]].value in order[..a]
  }

  /** Reaching an end takes a parent that reaches one. */
  lemma EndsByParent(ps: Parents, i: nat)
    requires Inside(ps) && i < |ps|
    ensures Ends(ps, i) <==> ps[i].None? || Ends(ps, ps[i].value)
  {
    if ps[i].None? {
      assert Up(ps, i, 1).None?;
    } else {
      if Ends(ps, i) {
        var k: nat :| Up(ps, i, k).None?;
        assert Up(ps, ps[i].value, k - 1).None?;
      }
      if Ends(ps, ps[i].value) {
        var k: nat :| Up(ps, ps[i].value, k).None?;
        assert Up(ps, i, k + 1).None?;
      }
    }
  }

  /** A full breadth-first order has exactly the positions whose chain ends. */
  ghost predicate Complete(ps: Parents, order: seq<nat>) {
    forall i :: 0 <= i < |ps| ==> (i in order <==> ps[i].None? || ps[i].value in order)
  }

  lemma {:induction false} OrderedEnds(ps: Parents, order: seq<nat>, a: nat)
    requires Inside(ps) && ParentsFirst(ps, order) && Below(order, |ps|)
    requires a < |order|
    ensures Ends(ps, order[a])
  {
    EndsByParent(ps, order[a]);
    assert ParentBefore(ps, order, a);
    if ps[order[a]].Some? {
      var b :| 0 <= b < a && order[..a][b] == ps[order[a]].value;
      OrderedEnds(ps, order, b);
    }
  }

  lemma {:induction false} EndingOrdered(ps: Parents, order: seq<nat>, i: nat, k: nat)
    requires Inside(ps) && Complete(ps, order) && i < |ps| && Up(ps, i, k).None?
    ensures i in order
    decreases k
  {
    if ps[i].Some? {
      EndingOrdered(ps, order, ps[i].value, k - 1);
    }
  }

  /** Distinct positions are all the positions exactly when there are as many. */
  lemma CountDistinct(s: seq<nat>, n: nat)
    requires NoRepeats(s) && Below(s, n)
    ensures |s| <= n
    ensures |s| == n <==> forall i :: 0 <= i < n ==> i in s
  {
    var all, used := Interval(0, n), Elements(s);
    IntervalSize(0, n);
    DistinctSize(s);
    SubsetSize(used, all);
    assert all == used + (all - used);
    assert |all| == |used| + |all - used|;
    if |s| == n {
      assert all - used == {};
      forall i | 0 <= i < n ensures i in s {
        assert Within(i, 0, n) && i in all && i !in all - used;
      }
    }
    assert (forall i :: 0 <= i < n ==> i in s) ==> all - used == {};
  }

  ghost function Elements(s: seq<nat>): set<nat> {
    set i | i in s
  }

  lemma {:induction false} DistinctSize(s: seq<nat>)
    requires NoRepeats(s)
    ensures |Elements(s)| == |s|
  {
    if s != [] {
      var n := |s| - 1;
      DistinctSize(s[..n]);
      assert s[n] !in s[..n];
      assert Elements(s) == Elements(s[..n]) + {s[n]};
    }
  }

  // ----- the algorithm ------------------------------------------------------------------

  function Get(index: map<Key, nat>, key: Key): Option<nat> {
    if key in index then Some(index[key]) else None
  }

  ghost predicate Indexes(index: map<Key, nat>, items: seq<Item>) {
    forall key :: Get(index, key) == Located(items, key)
  }

  method IndexItems(items: seq<Item>) returns (index: map<Key, nat>)
    ensures Indexes(index, items)
  {
    index := map[];
    for i := 0 to |items|
      invariant Indexes(index, items[..i])
    {
      assert items[..i + 1][..i] == items[..i];
      ghost var before := index;
      if items[i].id.Some? {
        index := index[items[i].id.value := i];
      }
      if items[i].externalId.Some? {
        index := index[items[i].externalId.value := i];
      }
      forall key ensures Get(index, key) == Located(items[..i + 1], key) {
        assert Get(before, key) == Located(items[..i], key);
      }
    }
    assert items[..|items|] == items;
  }

  /** The index entry of an item's parent, if it names one. */
  function ParentEntry(index: map<Key, nat>, item: Item): Option<nat> {
    if item.parent.None? || item.parent.value == External("") then None else Get(index, item.parent.value)
  }

  /** What a default dict gives. */
  function Edges(graph: map<nat, seq<nat>>, p: nat): seq<nat> {
    if p in graph then graph[p] else []
  }

  /** The edges of the first `n` items. */
  ghost predicate GraphUpTo(ps: Parents, graph: map<nat, seq<nat>>, n: nat)
    requires n <= |ps|
  {
    forall p {:trigger Edges(graph, p)} :: Edges(graph, p) == Having(ps, Some(p), n)
  }

  lemma GraphGrows(ps: Parents, graph: map<nat, seq<nat>>, n: nat)
    requires n < |ps| && GraphUpTo(ps, graph, n)
    ensures ps[n].None? ==> GraphUpTo(ps, graph, n + 1)
    ensures ps[n].Some? ==> var p := ps[n].value; GraphUpTo(ps, graph[p := Edges(graph, p) + [n]], n + 1)
  {
    if ps[n].Some? {
      var longer := graph[ps[n].value := Edges(graph, ps[n].value) + [n]];
      forall p ensures Edges(longer, p) == Having(ps, Some(p), n + 1) {
        assert Edges(graph, p) == Having(ps, Some(p), n);
      }
    } else {
      forall p ensures Edges(graph, p) == Having(ps, Some(p), n + 1) {
        assert Edges(graph, p) == Having(ps, Some(p), n);
      }
    }
  }

  ghost predicate DegreesUpTo(ps: Parents, inDegree: seq<int>, n: nat)
  {
    && |inDegree| == |ps|
    && (forall i :: 0 <= i < |ps| ==> inDegree[i] == if n <= i || ps[i].None? then 0 else 1)
  }

  method BuildGraph(items: seq<Item>) returns (graph: map<nat, seq<nat>>, inDegree: seq<int>)
    ensures GraphUpTo(ParentsOf(items), graph, |items|)
    ensures DegreesUpTo(ParentsOf(items), inDegree, |items|)
  {
    ghost var ps := ParentsOf(items);
    var index := IndexItems(items);
    graph, inDegree := map[], seq(|items|, _ => 0);
    for i := 0 to |items|
      invariant GraphUpTo(ps, graph, i)
      invariant DegreesUpTo(ps, inDegree, i)
    {
      var parent := ParentEntry(index, items[i]);
      assert parent == ps[i];
      GraphGrows(ps, graph, i);
      if parent.Some? {
        graph := graph[parent.value := Edges(graph, parent.value) + [i]];
        inDegree := inDegree[i := inDegree[i] + 1];
      }
    }
  }

  /** Exactly the positions in `known` have no parent left to wait for. */
  ghost predicate Released(inDegree: seq<int>, n: nat, known: seq<nat>) {
    && |inDegree| == n
    && (forall i :: 0 <= i < n ==> inDegree[i] == if i in known then 0 else 1)
  }

  method WithoutParents(inDegree: seq<int>, n: nat, ghost ps: Parents) returns (queue: seq<nat>)
    requires n == |ps| && DegreesUpTo(ps, inDegree, n)
    ensures queue == Roots(ps) && Released(inDegree, n, queue)
  {
    queue := [];
    for i := 0 to n
      invariant queue == Having(ps, None, i)
    {
      if inDegree[i] == 0 {
        queue := queue + [i];
      }
    }
    forall i | 0 <= i < n ensures i in queue <==> ps[i].None? {
      HavingIs(ps, None, n, i);
    }
  }

  /** Takes one parent off every child, and queues those that have none left. */
  method Release(children: seq<nat>, inDegree: seq<int>, queue: seq<nat>, ghost n: nat, ghost known: seq<nat>)
    returns (after: seq<int>, longer: seq<nat>)
    requires Released(inDegree, n, known) && Fresh(children, known, n)
    ensures longer == queue + children && Released(after, n, known + children)
  {
    after, longer := inDegree, queue;
    for j := 0 to |children|
      invariant longer == queue + children[..j]
      invariant Released(after, n, known + children[..j])
    {
      var child := children[j];
      assert child in children && child !in children[..j];
      after := after[child := after[child] - 1];
      if after[child] == 0 {
        longer := longer + [child];
      }
      assert known + children[..j + 1] == known + children[..j] + [child];
    }
    assert children[..|children|] == children;
  }

  lemma Shifted(s: seq<nat>, t: seq<nat>, u: seq<nat>)
    requires t != []
    ensures s + t + u == s + [t[0]] + (t[1..] + u) && (s + t)[|s|] == t[0]
  {
  }

  /** Children that are new to what is known. */
  predicate Fresh(children: seq<nat>, known: seq<nat>, n: nat) {
    NoRepeats(children) && Below(children, n) && forall i :: i in children ==> i !in known
  }

  /** Visits the queue to its end. */
  method Explore(graph: map<nat, seq<nat>>, degrees: seq<int>, roots: seq<nat>, ghost ps: Parents)
    returns (sorted: seq<nat>)
    requires Inside(ps) && GraphUpTo(ps, graph, |ps|) && roots == Roots(ps) && Released(degrees, |ps|, roots)
    ensures Exploring(ps, sorted, |sorted|)
  {
    var inDegree, queue := degrees, roots;
    sorted := [];
    ghost var known := queue;
    Started(ps);
    while queue != []
      invariant sorted + queue == known
      invariant Exploring(ps, known, |sorted|)
      invariant Released(inDegree, |ps|, known)
      decreases |ps| - |sorted|
    {
      var current := queue[0];
      Shifted(sorted, queue, Edges(graph, current));
      Explored(ps, known, |sorted|);
      var children := Edges(graph, current);
      inDegree, queue := Release(children, inDegree, queue[1..], |ps|, known);
      known, sorted := known + children, sorted + [current];
    }
    assert known == sorted;
  }

  /**
   The positions of the events in sorted order: every event once, parents before children, roots
   in their order and then, event by event, the children in theirs.  The sort fails exactly
   when some chain of parents never ends.
   */
  method TopologicalSortEvents(items: seq<Item>) returns (r: Result<seq<nat>, SortError>)
    ensures r.Ok? <==> AllEnd(ParentsOf(items))
    ensures r.Ok? ==> Sorted(ParentsOf(items), r.value)
    ensures r.Ok? ==> r.value == Roots(ParentsOf(items)) + Offspring(ParentsOf(items), r.value)
    ensures r.Ok? ==> forall a, p :: 0 <= a < |r.value| && LastNamed(items, r.value[a], p) ==> p in r.value[..a]
  {
    ghost var ps := ParentsOf(items);
    var graph, inDegree := BuildGraph(items);
    var queue := WithoutParents(inDegree, |items|, ps);
    var sorted := Explore(graph, inDegree, queue, ps);
    Finished(ps, sorted);
    if |sorted| != |items| {
      return Err(CircularDependency);
    }
    forall a, p | 0 <= a < |sorted| && LastNamed(items, sorted[a], p) ensures p in sorted[..a] {
      NamedComesFirst(items, sorted, a, p);
    }
    return Ok(sorted);
  }

  /** Item `p` is the last one with the key that item `i` names as its parent's. */
  predicate LastNamed(items: seq<Item>, i: nat, p: nat) {
    && i < |items| && p < |items|
    && items[i].parent.Some? && items[i].parent != Some(External(""))
    && (items[p].id == items[i].parent || items[p].externalId == items[i].parent)
    && forall j :: p < j < |items| ==> items[j].id != items[i].parent && items[j].externalId != items[i].parent
  }

  lemma NamedComesFirst(items: seq<Item>, order: seq<nat>, a: nat, p: nat)
    requires Sorted(ParentsOf(items), order) && a < |order| && LastNamed(items, order[a], p)
    ensures p in order[..a]
  {
    ParentsExactly(items, order[a], p);
    assert ParentBefore(ParentsOf(items), order, a);
  }

  ghost predicate Sorted(ps: Parents, order: seq<nat>) {
    && |order| == |ps|
    && NoRepeats(order) && Below(order, |ps|)
    && (forall i :: 0 <= i < |ps| ==> i in order)
    && ParentsFirst(ps, order)
  }

  /**
   What holds between two visits: the first `visited` of the known positions have been visited,
   the others are queued, and all are in breadth-first order.
   */
  ghost predicate Exploring(ps: Parents, known: seq<nat>, visited: nat) {
    && Inside(ps)
    && visited <= |known| <= |ps|
    && known == Roots(ps) + Offspring(ps, known[..visited])
    && NoRepeats(known) && Below(known, |ps|)
    && ParentsFirst(ps, known)
  }

  lemma Started(ps: Parents)
    requires Inside(ps)
    ensures Exploring(ps, Roots(ps), 0)
  {
    HavingInOrder(ps, None, |ps|);
    CountDistinct(Roots(ps), |ps|);
  }

  /** What is known are the roots and the children of the visited. */
  lemma Known(ps: Parents, known: seq<nat>, visited: nat, i: nat)
    requires Exploring(ps, known, visited)
    ensures i in known <==> i < |ps| && (ps[i].None? || ps[i].value in known[..visited])
  {
    assert i in known <==> i in Roots(ps) || i in Offspring(ps, known[..visited]);
    HavingIs(ps, None, |ps|, i);
    OffspringIs(ps, known[..visited], i);
  }

  /** The children of the head of the queue are new. */
  lemma NewChildren(ps: Parents, known: seq<nat>, visited: nat)
    requires Exploring(ps, known, visited) && visited < |known|
    ensures forall i :: i in Children(ps, known[visited]) ==> i !in known
  {
    forall i | i in Children(ps, known[visited]) ensures i !in known {
      Known(ps, known, visited, i);
      HavingIs(ps, Some(known[visited]), |ps|, i);
    }
  }

  /** Visiting the head of the queue and queueing its children. */
  lemma Explored(ps: Parents, known: seq<nat>, visited: nat)
    requires Exploring(ps, known, visited) && visited < |known|
    ensures var children := Children(ps, known[visited]);
            && Fresh(children, known, |ps|)
            && Exploring(ps, known + children, visited + 1)
  {
    var children := Children(ps, known[visited]);
    var longer := known + children;
    NewChildren(ps, known, visited);
    HavingInOrder(ps, Some(known[visited]), |ps|);
    DistinctTogether(known, children);
    CountDistinct(longer, |ps|);
    ChildrenBehind(ps, known, visited);
    BreadthFirst(ps, known, visited);
  }

  lemma BreadthFirst(ps: Parents, known: seq<nat>, visited: nat)
    requires visited < |known| && known == Roots(ps) + Offspring(ps, known[..visited])
    ensures var longer := known + Children(ps, known[visited]);
            longer == Roots(ps) + Offspring(ps, longer[..visited + 1])
  {
    var longer := known + Children(ps, known[visited]);
    assert longer[..visited + 1][..visited] == known[..visited];
    assert longer[..visited + 1][visited] == known[visited];
  }

  lemma DistinctTogether(s: seq<nat>, t: seq<nat>)
    requires NoRepeats(s) && NoRepeats(t) && forall i :: i in t ==> i !in s
    ensures NoRepeats(s + t)
  {
    forall a, b | 0 <= a < b < |s + t| ensures (s + t)[a] != (s + t)[b] {
      if a < |s| <= b {
        assert t[b - |s|] in t && s[a] in s;
      }
    }
  }

  /** Appending the children of a position already listed. */
  lemma ChildrenBehind(ps: Parents, known: seq<nat>, at: nat)
    requires Inside(ps) && ParentsFirst(ps, known) && at < |known|
    ensures ParentsFirst(ps, known + Children(ps, known[at]))
  {
    var children := Children(ps, known[at]);
    var all := known + children;
    HavingInOrder(ps, Some(known[at]), |ps|);
    forall a | 0 <= a < |all|
      ensures ParentBefore(ps, all, a)
    {
      if a < |known| {
        assert ParentBefore(ps, known, a);
        assert all[..a] == known[..a];
      } else {
        assert all[..a][at] == known[at];
      }
    }
  }

  /** With the queue empty all that can be reached has been. */
  lemma Finished(ps: Parents, order: seq<nat>)
    requires Exploring(ps, order, |order|)
    ensures order == Roots(ps) + Offspring(ps, order)
    ensures |order| == |ps| <==> AllEnd(ps)
    ensures |order| == |ps| ==> Sorted(ps, order)
  {
    assert order[..|order|] == order;
    forall i: nat ensures i in order <==> i < |ps| && (ps[i].None? || ps[i].value in order) {
      Known(ps, order, |order|, i);
    }
    CountDistinct(order, |ps|);
    forall i | 0 <= i < |ps| ensures i in order <==> Ends(ps, i) {
      ReachedExactly(ps, order, i);
    }
  }

  lemma ReachedExactly(ps: Parents, order: seq<nat>, i: nat)
    requires Inside(ps) && ParentsFirst(ps, order) && Below(order, |ps|) && Complete(ps, order)
    requires i < |ps|
    ensures i in order <==> Ends(ps, i)
  {
    if i in order {
      var a :| 0 <= a < |order| && order[a] == i;
      OrderedEnds(ps, order, a);
    }
    if Ends(ps, i) {
      var k: nat :| Up(ps, i, k).None?;
      EndingOrdered(ps, order, i, k);
    }
  }

  // ----- one order only -----------------------------------------------------------------

  /** What is known after `v` visits. */
  function KnownAfter(ps: Parents, order: seq<nat>, v: nat): seq<nat>
    requires v <= |order|
  {
    Roots(ps) + Offspring(ps, order[..v])
  }

  lemma {:induction false} KnownGrows(ps: Parents, order: seq<nat>, v: nat)
    requires v <= |order|
    ensures var early, late := KnownAfter(ps, order, v), KnownAfter(ps, order, |order|);
            |early| <= |late| && early == late[..|early|]
    decreases |order| - v
  {
    if v < |order| {
      KnownGrows(ps, order, v + 1);
      assert order[..v + 1][..v] == order[..v];
      var next := KnownAfter(ps, order, v + 1);
      assert next == KnownAfter(ps, order, v) + Children(ps, order[v]);
    }
  }

  lemma VisitedKnown(ps: Parents, order: seq<nat>, v: nat, a: nat)
    requires Inside(ps) && Sorted(ps, order) && a <= v < |order|
    ensures order[a] in KnownAfter(ps, order, v)
  {
    assert ParentBefore(ps, order, a);
    HavingIs(ps, None, |ps|, order[a]);
    OffspringIs(ps, order[..v], order[a]);
    if ps[order[a]].Some? {
      var b :| 0 <= b < a && order[..a][b] == ps[order[a]].value;
      assert order[..v][b] == ps[order[a]].value;
    }
  }

  /** After `v` visits more than `v` positions are known. */
  lemma KnowsNext(ps: Parents, order: seq<nat>, v: nat)
    requires Inside(ps) && Sorted(ps, order) && order == KnownAfter(ps, order, |order|) && v < |order|
    ensures v < |KnownAfter(ps, order, v)| && order[v] == KnownAfter(ps, order, v)[v]
  {
    var known, first := KnownAfter(ps, order, v), order[..v + 1];
    KnownGrows(ps, order, v);
    DistinctSize(known);
    DistinctSize(first);
    assert Elements(first) <= Elements(known) by {
      forall i | i in Elements(first) ensures i in Elements(known) {
        var a :| 0 <= a <= v && first[a] == i;
        VisitedKnown(ps, order, v, a);
      }
    }
    SubsetSize(Elements(first), Elements(known));
  }

  lemma {:induction false} SamePrefix(ps: Parents, s: seq<nat>, t: seq<nat>, v: nat)
    requires Inside(ps) && Sorted(ps, s) && Sorted(ps, t) && v <= |ps|
    requires s == KnownAfter(ps, s, |s|) && t == KnownAfter(ps, t, |t|)
    ensures s[..v] == t[..v]
  {
    if v > 0 {
      SamePrefix(ps, s, t, v - 1);
      KnowsNext(ps, s, v - 1);
      KnowsNext(ps, t, v - 1);
      assert s[..v] == s[..v - 1] + [s[v - 1]] && t[..v] == t[..v - 1] + [t[v - 1]];
    }
  }

  /** Parents first and breadth first leave one order only. */
  lemma OrderDetermined(ps: Parents, s: seq<nat>, t: seq<nat>)
    requires Inside(ps) && Sorted(ps, s) && Sorted(ps, t)
    requires s == Roots(ps) + Offspring(ps, s) && t == Roots(ps) + Offspring(ps, t)
    ensures s == t
  {
    assert s[..|s|] == s && t[..|t|] == t;
    SamePrefix(ps, s, t, |ps|);
  }

  // ----- the order, position by position ------------------------------------------------

  /** Positions of the offspring come parent by parent, and siblings in their order. */
  lemma {:induction false} OffspringInOrder(ps: Parents, parents: seq<nat>, a: nat, b: nat) returns (i: nat, j: nat)
    requires Inside(ps) && a < b < |Offspring(ps, parents)|
    ensures var s := Offspring(ps, parents);
            && i <= j < |parents| && s[a] < |ps| && s[b] < |ps|
            && ps[s[a]] == Some(parents[i]) && ps[s[b]] == Some(parents[j])
            && (i == j ==> s[a] < s[b])
  {
    var n := |parents| - 1;
    var early, last := Offspring(ps, parents[..n]), Children(ps, parents[n]);
    var s := Offspring(ps, parents);
    HavingInOrder(ps, Some(parents[n]), |ps|);
    if b < |early| {
      i, j := OffspringInOrder(ps, parents[..n], a, b);
    } else {
      assert s[b] == last[b - |early|];
      j := n;
      if a < |early| {
        assert s[a] == early[a] && early[a] in early;
        OffspringIs(ps, parents[..n], early[a]);
        i :| 0 <= i < n && parents[..n][i] == ps[s[a]].value;
      } else {
        assert s[a] == last[a - |early|];
        i := n;
      }
    }
  }

  /**
   The sorted order is breadth first: events without parents come first and in the order given;
   the others come in the order of their parents, those of one parent in the order given.
   */
  lemma BreadthFirstOrder(ps: Parents, order: seq<nat>, a: nat, b: nat) returns (i: nat, j: nat)
    requires Inside(ps) && Sorted(ps, order) && order == Roots(ps) + Offspring(ps, order) && a < b < |order|
    ensures ps[order[b]].None? ==> ps[order[a]].None? && order[a] < order[b]
    ensures ps[order[a]].Some? ==>
              && ps[order[b]].Some?
              && i <= j < |order| && ps[order[a]] == Some(order[i]) && ps[order[b]] == Some(order[j])
              && (i == j ==> order[a] < order[b])
  {
    var roots, rest := Roots(ps), Offspring(ps, order);
    HavingInOrder(ps, None, |ps|);
    i, j := 0, 0;
    if |roots| <= b {
      assert order[b] == rest[b - |roots|] && order[b] in rest;
      OffspringIs(ps, order, order[b]);
    }
    if |roots| <= a {
      i, j := OffspringInOrder(ps, order, a - |roots|, b - |roots|);
    }
  }
}
