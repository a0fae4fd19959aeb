/**
 `_parse_form_data` of server/rapidly/admin/forms.py as it works: a cursor walks down nested dicts
 that are created and changed in place.  The dicts are proved to represent the tree that
 `FormKeys.Parsed` computes on values.
 */
module FormParser {
  import opened Prelude
  import opened FormKeys

  datatype Cell = Text(value: string) | Sub(dict: Dict)

  class Dict {
    var entries: map<string, Cell>

    constructor ()
      ensures entries == map[]
    {
      entries := map[];
    }
  }

  /** The whole of what a cell holds, all the way down. */
  ghost predicate Represents(cell: Cell, tree: Tree)
    reads *
    decreases tree
  {
    match tree
    case Leaf(value) => cell == Text(value)
    case Node(children) =>
      && cell.Sub?
      && cell.dict.entries.Keys == children.Keys
      && forall k :: k in children ==> Represents(cell.dict.entries[k], children[k])
  }

  // ----- one level of a tree ------------------------------------------------------------

  /** The keys of a dict: with their values, or none where there is a dict. */
  type Level = map<string, Option<string>>

  function LevelOf(children: map<string, Tree>): Level {
    map k | k in children :: if children[k].Leaf? then Some(children[k].value) else None
  }

  /** The dict at the end of a path. */
  function LevelAt(tree: map<string, Tree>, path: Path): Option<Level>
    decreases |path|
  {
    if path == [] then Some(LevelOf(tree))
    else if path[0] in tree && tree[path[0]].Node? then LevelAt(tree[path[0]].children, path[1..])
    else None
  }

  /** Assigns in the dict that holds the end of the path. */
  function Assign(tree: map<string, Tree>, path: Path, x: Tree): map<string, Tree>
    decreases |path|
  {
    if path == [] then tree
    else if |path| == 1 then tree[path[0] := x]
    else if path[0] in tree && tree[path[0]].Node? then
      tree[path[0] := Node(Assign(tree[path[0]].children, path[1..], x))]
    else tree
  }

  function Front(path: Path): Path
    requires path != []
  {
    path[..|path| - 1]
  }

  function End(path: Path): string
    requires path != []
  {
    path[|path| - 1]
  }

  lemma FrontTail(path: Path)
    requires |path| > 1
    ensures Front(path)[1..] == Front(path[1..]) && End(path[1..]) == End(path)
  {
  }

  /** An assignment changes the level it is made in, and replaces what lies below its key. */
  lemma {:induction false} AssignLevel(tree: map<string, Tree>, path: Path, x: Tree, q: Path)
    requires path != [] && LevelAt(tree, Front(path)).Some?
    ensures var after := Assign(tree, path, x);
            LevelAt(after, q) ==
            if q == Front(path) then Some(LevelAt(tree, q).value[End(path) := if x.Leaf? then Some(x.value) else None])
            else if IsPrefix(path, q) then (if x.Leaf? then None else LevelAt(x.children, q[|path|..]))
            else LevelAt(tree, q)
    decreases |path|
  {
    if q != [] && q[0] == path[0] {
      if |path| == 1 {
        assert q[..1] == path;
      } else {
        FrontTail(path);
        AssignLevel(tree[path[0]].children, path[1..], x, q[1..]);
        assert q == Front(path) <==> q[1..] == Front(path[1..]) by {
          assert q == [q[0]] + q[1..] && Front(path) == [path[0]] + Front(path)[1..];
        }
        assert IsPrefix(path, q) <==> IsPrefix(path[1..], q[1..]) by {
          assert path == [path[0]] + path[1..];
          if |path| <= |q| {
            assert q[..|path|] == [q[0]] + q[1..][..|path| - 1];
          }
        }
        assert IsPrefix(path, q) ==> q[|path|..] == q[1..][|path[1..]|..];
      }
    } else if q != [] {
      assert q != Front(path) || |path| == 1;
      assert !IsPrefix(path, q);
    } else if |path| > 1 {
      assert LevelOf(Assign(tree, path, x)) == LevelOf(tree);
    } else {
      assert LevelOf(Assign(tree, path, x)) == LevelOf(tree)[End(path) := if x.Leaf? then Some(x.value) else None];
    }
  }

  // ----- what `Put` does, level by level ------------------------------------------------

  /** At the end of the walk the value is assigned. */
  lemma {:induction false} PutAssigns(tree: map<string, Tree>, path: Path, value: string)
    requires path != [] && LevelAt(tree, Front(path)).Some?
    ensures Put(tree, path, value) == Ok(Assign(tree, path, Leaf(value)))
    decreases |path|
  {
    if |path| > 1 {
      FrontTail(path);
      PutAssigns(tree[path[0]].children, path[1..], value);
    }
  }

  /** A missing dict may as well be there, empty. */
  lemma {:induction false} PutThroughNew(tree: map<string, Tree>, path: Path, n: nat, value: string)
    requires 1 <= n < |path| && LevelAt(tree, Front(path[..n])).Some?
    requires path[n - 1] !in LevelAt(tree, Front(path[..n])).value
    ensures Put(Assign(tree, path[..n], Node(map[])), path, value) == Put(tree, path, value)
    decreases n
  {
    if n > 1 {
      FrontTail(path[..n]);
      assert path[..n][1..] == path[1..][..n - 1];
      var below := tree[path[0]].children;
      PutThroughNew(below, path[1..], n - 1, value);
      var with := Assign(tree, path[..n], Node(map[]));
      assert with == tree[path[0] := Node(Assign(below, path[1..][..n - 1], Node(map[])))];
      var r := Put(below, path[1..], value);
      if r.Ok? {
        assert with[path[0] := Node(r.value)] == tree[path[0] := Node(r.value)];
      }
    } else {
      var with := Assign(tree, path[..1], Node(map[]));
      assert path[0] !in tree && with == tree[path[0] := Node(map[])];
      var r := Put(map[], path[1..], value);
      if r.Ok? {
        assert with[path[0] := Node(r.value)] == tree[path[0] := Node(r.value)];
      }
    }
  }

  /** A value in the way stops the walk. */
  lemma {:induction false} PutBlocked(tree: map<string, Tree>, path: Path, n: nat, value: string)
    requires 1 <= n < |path| && LevelAt(tree, Front(path[..n])).Some?
    requires var level := LevelAt(tree, Front(path[..n])).value; path[n - 1] in level && level[path[n - 1]].Some?
    ensures Put(tree, path, value) == Err(NotADict)
    decreases n
  {
    if n > 1 {
      FrontTail(path[..n]);
      assert path[..n][1..] == path[1..][..n - 1];
      PutBlocked(tree[path[0]].children, path[1..], n - 1, value);
    }
  }

  // ----- dicts that hold a tree ---------------------------------------------------------

  function LevelIn(entries: map<string, Cell>): Level {
    map k | k in entries :: if entries[k].Text? then Some(entries[k].value) else None
  }

  /** These entries are the level of the tree at `p`, and their dicts stand where they should. */
  ghost predicate Fits(entries: map<string, Cell>, p: Path, home: map<Dict, Path>, tree: map<string, Tree>) {
    && LevelAt(tree, p) == Some(LevelIn(entries))
    && forall k :: k in entries && entries[k].Sub? ==> entries[k].dict in home && home[entries[k].dict] == p + [k]
  }

  /** The entries of every dict. */
  type Contents = map<Dict, map<string, Cell>>

  /** The dicts hold the tree, each a level of its own, `d` the one at the path `home[d]`. */
  ghost predicate Fit(root: Dict, home: map<Dict, Path>, contents: Contents, tree: map<string, Tree>) {
    && contents.Keys == home.Keys
    && root in home && home[root] == []
    && OneEach(home)
    && (forall d :: d in home ==> Fits(contents[d], home[d], home, tree))
  }

  /** No two dicts stand at the same path. */
  ghost predicate OneEach(home: map<Dict, Path>) {
    forall d, e :: d in home && e in home && home[d] == home[e] ==> d == e
  }

  ghost function ContentsOf(dicts: set<Dict>): Contents
    reads dicts
  {
    map d | d in dicts :: d.entries
  }

  ghost predicate Mirrors(root: Dict, home: map<Dict, Path>, tree: map<string, Tree>)
    reads home.Keys
  {
    Fit(root, home, ContentsOf(home.Keys), tree)
  }

  // ----- from levels to whole trees -----------------------------------------------------

  /** What the tree has at the end of a path, if that is a dict. */
  function SubtreeAt(tree: map<string, Tree>, path: Path): Option<map<string, Tree>>
    decreases |path|
  {
    if path == [] then Some(tree)
    else if path[0] in tree && tree[path[0]].Node? then SubtreeAt(tree[path[0]].children, path[1..])
    else None
  }

  lemma {:induction false} SubtreeStep(tree: map<string, Tree>, p: Path, k: string)
    requires SubtreeAt(tree, p).Some?
    ensures LevelAt(tree, p) == Some(LevelOf(SubtreeAt(tree, p).value))
    ensures k in SubtreeAt(tree, p).value && SubtreeAt(tree, p).value[k].Node? ==>
              SubtreeAt(tree, p + [k]) == Some(SubtreeAt(tree, p).value[k].children)
    decreases |p|
  {
    if p != [] {
      SubtreeStep(tree[p[0]].children, p[1..], k);
      assert (p + [k])[1..] == p[1..] + [k];
    } else {
      assert [k][1..] == [];
    }
  }

  /** Level by level the dicts hold the whole tree. */
  lemma {:induction false} MirrorsRepresent(root: Dict, home: map<Dict, Path>, tree: map<string, Tree>, d: Dict, subtree: Tree)
    requires Mirrors(root, home, tree) && d in home
    requires subtree.Node? && SubtreeAt(tree, home[d]) == Some(subtree.children)
    ensures Represents(Sub(d), subtree)
    decreases subtree
  {
    var children := subtree.children;
    assert Fits(d.entries, home[d], home, tree);
    SubtreeStep(tree, home[d], "");
    assert d.entries.Keys == LevelIn(d.entries).Keys == LevelOf(children).Keys == children.Keys;
    forall k | k in children ensures Represents(d.entries[k], children[k]) {
      assert LevelIn(d.entries)[k] == LevelOf(children)[k];
      if children[k].Node? {
        SubtreeStep(tree, home[d], k);
        MirrorsRepresent(root, home, tree, d.entries[k].dict, children[k]);
      }
    }
    assert Sub(d).dict == d && subtree == Node(children);
  }

  /** The dicts that are not replaced when `path` is assigned. */
  ghost function Kept(home: map<Dict, Path>, path: Path): map<Dict, Path> {
    map d | d in home && !IsPrefix(path, home[d]) :: home[d]
  }

  /** The entries of another dict, when a dict is created at `at + [key]`. */
  lemma OthersFitNew(entries: map<string, Cell>, p: Path, home: map<Dict, Path>, tree: map<string, Tree>, at: Path, key: string, made: Dict)
    requires Fits(entries, p, home, tree) && made !in home && p != at
    requires LevelAt(tree, at).Some? && key !in LevelAt(tree, at).value
    ensures p != at + [key] && Fits(entries, p, home[made := at + [key]], Assign(tree, at + [key], Node(map[])))
  {
    assert Front(at + [key]) == at;
    AssignLevel(tree, at + [key], Node(map[]), p);
    NothingBelow(tree, at, key, p);
  }

  /** The entries of the dict it is created in. */
  lemma ParentFitsNew(entries: map<string, Cell>, p: Path, home: map<Dict, Path>, tree: map<string, Tree>, key: string, made: Dict)
    requires Fits(entries, p, home, tree) && made !in home && key !in entries
    ensures Fits(entries[key := Sub(made)], p, home[made := p + [key]], Assign(tree, p + [key], Node(map[])))
  {
    assert Front(p + [key]) == p;
    AssignLevel(tree, p + [key], Node(map[]), p);
    assert LevelIn(entries[key := Sub(made)]) == LevelIn(entries)[key := None];
  }

  /** The entries of any dict, then. */
  lemma FitsAfterNew(root: Dict, home: map<Dict, Path>, contents: Contents, tree: map<string, Tree>,
                     node: Dict, key: string, made: Dict, d: Dict)
    requires Fit(root, home, contents, tree) && node in home && made !in home && key !in contents[node] && d in home
    ensures home[d] != home[node] + [key]
    ensures Fits(if d == node then contents[node][key := Sub(made)] else contents[d], home[d],
                 home[made := home[node] + [key]], Assign(tree, home[node] + [key], Node(map[])))
  {
    assert Fits(contents[node], home[node], home, tree) && Fits(contents[d], home[d], home, tree);
    if d == node {
      ParentFitsNew(contents[node], home[node], home, tree, key, made);
    } else {
      OneEachApart(home, d, node);
      OthersFitNew(contents[d], home[d], home, tree, home[node], key, made);
    }
  }

  /** Creating the dict the walk misses. */
  lemma NewDictFits(root: Dict, home: map<Dict, Path>, contents: Contents, longer: Contents, tree: map<string, Tree>,
                    node: Dict, key: string, made: Dict)
    requires Fit(root, home, contents, tree) && node in home && made !in home && key !in contents[node]
    requires longer.Keys == home.Keys + {made} && longer[made] == map[]
    requires forall d :: d in home ==> longer[d] == if d == node then contents[node][key := Sub(made)] else contents[d]
    ensures Fit(root, home[made := home[node] + [key]], longer, Assign(tree, home[node] + [key], Node(map[])))
  {
    var path := home[node] + [key];
    assert LevelAt(tree, home[node]).Some? by {
      assert Fits(contents[node], home[node], home, tree);
    }
    NewFits(home[node], home, tree, key, made);
    forall d | d in home
      ensures home[d] != path && Fits(longer[d], home[d], home[made := path], Assign(tree, path, Node(map[])))
    {
      FitsAfterNew(root, home, contents, tree, node, key, made, d);
    }
    OneEachMore(home, made, path);
  }

  lemma OneEachApart(home: map<Dict, Path>, d: Dict, e: Dict)
    requires OneEach(home) && d in home && e in home && d != e
    ensures home[d] != home[e]
  {
  }

  lemma OneEachMore(home: map<Dict, Path>, made: Dict, path: Path)
    requires OneEach(home) && forall d :: d in home ==> home[d] != path
    ensures OneEach(home[made := path])
  {
  }

  /** The created dict itself. */
  lemma NewFits(at: Path, home: map<Dict, Path>, tree: map<string, Tree>, key: string, made: Dict)
    requires LevelAt(tree, at).Some?
    ensures Fits(map[], at + [key], home[made := at + [key]], Assign(tree, at + [key], Node(map[])))
  {
    var path := at + [key];
    assert Front(path) == at && path[|path|..] == [];
    AssignLevel(tree, path, Node(map[]), path);
  }

  /** No dict stands below a key that is not there. */
  lemma {:induction false} NothingBelow(tree: map<string, Tree>, p: Path, key: string, q: Path)
    requires LevelAt(tree, p).Some? && LevelAt(tree, q).Some?
    requires key in LevelAt(tree, p).value ==> LevelAt(tree, p).value[key].Some?
    ensures !IsPrefix(p + [key], q)
    decreases |p|
  {
    var path := p + [key];
    if IsPrefix(path, q) {
      assert q[0] == q[..|path|][0] == path[0];
      if p != [] {
        assert q[1..][..|p|] == q[..|path|][1..] == p[1..] + [key];
        NothingBelow(tree[p[0]].children, p[1..], key, q[1..]);
        assert false;
      }
    }
  }

  /** The entries of another dict, when the value at `path` is assigned. */
  lemma OthersFit(entries: map<string, Cell>, p: Path, home: map<Dict, Path>, tree: map<string, Tree>, path: Path, value: string)
    requires Fits(entries, p, home, tree)
    requires path != [] && LevelAt(tree, Front(path)).Some? && !IsPrefix(path, p) && p != Front(path)
    ensures Fits(entries, p, Kept(home, path), Assign(tree, path, Leaf(value)))
  {
    AssignLevel(tree, path, Leaf(value), p);
    forall k | k in entries && entries[k].Sub? ensures entries[k].dict in Kept(home, path) {
      if IsPrefix(path, p + [k]) {
        PrefixOfNext(path, p, k);
      }
    }
  }

  /** The entries of the dict the value is assigned in. */
  lemma AssignedFit(entries: map<string, Cell>, p: Path, home: map<Dict, Path>, tree: map<string, Tree>, key: string, value: string)
    requires Fits(entries, p, home, tree)
    ensures Fits(entries[key := Text(value)], p, Kept(home, p + [key]), Assign(tree, p + [key], Leaf(value)))
  {
    var path, after := p + [key], entries[key := Text(value)];
    assert Front(path) == p;
    AssignLevel(tree, path, Leaf(value), p);
    assert LevelIn(after) == LevelIn(entries)[key := Some(value)];
    forall k | k in after && after[k].Sub? ensures after[k].dict in Kept(home, path) && home[after[k].dict] == p + [k] {
      if IsPrefix(path, p + [k]) {
        PrefixOfNext(path, p, k);
      }
    }
  }

  /** Assigning the value at the end; dicts below it are cut off. */
  lemma ValueFits(root: Dict, home: map<Dict, Path>, contents: Contents, longer: Contents, tree: map<string, Tree>, node: Dict, key: string, value: string)
    requires Fit(root, home, contents, tree) && node in home
    requires longer.Keys == Kept(home, home[node] + [key]).Keys
    requires forall d :: d in longer ==> longer[d] == if d == node then contents[node][key := Text(value)] else contents[d]
    ensures Fit(root, Kept(home, home[node] + [key]), longer, Assign(tree, home[node] + [key], Leaf(value)))
  {
    var path := home[node] + [key];
    var kept := Kept(home, path);
    assert Front(path) == home[node];
    assert Fits(contents[node], home[node], home, tree);
    forall d | d in kept ensures Fits(longer[d], home[d], kept, Assign(tree, path, Leaf(value))) {
      assert Fits(contents[d], home[d], home, tree);
      if d == node {
        AssignedFit(contents[node], home[node], home, tree, key, value);
      } else {
        OthersFit(contents[d], home[d], home, tree, path, value);
      }
    }
  }

  lemma PrefixOfNext(path: Path, q: Path, k: string)
    requires path != [] && IsPrefix(path, q + [k])
    ensures IsPrefix(path, q) || (q == Front(path) && k == End(path))
  {
    if |path| <= |q| {
      assert (q + [k])[..|path|] == q[..|path|];
    } else {
      assert (q + [k])[..|path|] == q + [k];
    }
  }

  // ----- the parser ---------------------------------------------------------------------

  /** Puts a new dict where the walk misses one. */
  method Create(root: Dict, node: Dict, key: string, ghost home: map<Dict, Path>, ghost tree: map<string, Tree>)
    returns (made: Dict)
    requires Mirrors(root, home, tree) && node in home && key !in node.entries
    modifies node
    ensures fresh(made) && made !in home
    ensures Mirrors(root, home[made := home[node] + [key]], Assign(tree, home[node] + [key], Node(map[])))
  {
    ghost var contents := ContentsOf(home.Keys);
    made := new Dict();
    node.entries := node.entries[key := Sub(made)];
    ghost var places := home[made := home[node] + [key]];
    NewDictFits(root, home, contents, ContentsOf(places.Keys), tree, node, key, made);
  }

  /** One step of the walk: to the dict for the segment, created if missing; none if a value is in the way. */
  method Descend(root: Dict, node: Dict, path: Path, i: nat, ghost value: string,
                 ghost home: map<Dict, Path>, ghost tree: map<string, Tree>)
    returns (next: Option<Dict>, ghost after: map<Dict, Path>, ghost grown: map<string, Tree>)
    requires Mirrors(root, home, tree) && node in home && i + 1 < |path| && home[node] == path[..i]
    modifies node
    ensures next.None? ==> Put(tree, path, value) == Err(NotADict)
    ensures next.Some? ==> Mirrors(root, after, grown) && next.value in after && after[next.value] == path[..i + 1]
    ensures Put(grown, path, value) == Put(tree, path, value)
    ensures forall d :: d in after && d !in home ==> fresh(d)
  {
    after, grown := home, tree;
    var key := path[i];
    assert Front(path[..i + 1]) == path[..i] && path[..i + 1] == path[..i] + [key];
    assert Fits(node.entries, home[node], home, tree);
    if key !in node.entries {
      PutThroughNew(tree, path, i + 1, value);
      var made := Create(root, node, key, home, tree);
      after, grown := home[made := path[..i + 1]], Assign(tree, path[..i + 1], Node(map[]));
      return Some(made), after, grown;
    } else if node.entries[key].Text? {
      PutBlocked(tree, path, i + 1, value);
      return None, after, grown;
    } else {
      return Some(node.entries[key].dict), after, grown;
    }
  }

  /** Walks down to the dict for the last segment, creating dicts on the way, and assigns there. */
  method Place(root: Dict, path: Path, value: string, ghost home: map<Dict, Path>, ghost tree: map<string, Tree>)
    returns (ok: bool, ghost after: map<Dict, Path>)
    requires Mirrors(root, home, tree) && path != []
    modifies home.Keys
    ensures ok <==> Put(tree, path, value).Ok?
    ensures !ok ==> Put(tree, path, value) == Err(NotADict)
    ensures forall d :: d in after && d !in home ==> fresh(d)
    ensures ok ==> Mirrors(root, after, Put(tree, path, value).value)
  {
    var node := root;
    after := home;
    ghost var grown := tree;
    for i := 0 to |path| - 1
      invariant Mirrors(root, after, grown) && node in after && after[node] == path[..i]
      invariant Put(grown, path, value) == Put(tree, path, value)
      invariant forall d :: d in after && d !in home ==> fresh(d)
    {
      var next;
      next, after, grown := Descend(root, node, path, i, value, after, grown);
      if next.None? {
        ok := false;
        return;
      }
      node := next.value;
    }
    Finish(root, node, path, value, after, grown);
    after := Kept(after, path);
    ok := true;
  }

  /** Assigns the value in the dict the walk has come to. */
  method Finish(root: Dict, node: Dict, path: Path, value: string, ghost home: map<Dict, Path>, ghost tree: map<string, Tree>)
    requires Mirrors(root, home, tree) && path != [] && node in home && home[node] == Front(path)
    modifies node
    ensures Put(tree, path, value).Ok? && Mirrors(root, Kept(home, path), Put(tree, path, value).value)
  {
    ghost var contents := ContentsOf(home.Keys);
    assert path == Front(path) + [End(path)];
    assert Fits(contents[node], home[node], home, tree);
    PutAssigns(tree, path, value);
    node.entries := node.entries[path[|path| - 1] := Text(value)];
    ValueFits(root, home, contents, ContentsOf(Kept(home, path).Keys), tree, node, End(path), value);
  }

  method PlaceEntry(root: Dict, entry: Entry, ghost home: map<Dict, Path>, ghost tree: map<string, Tree>)
    returns (error: Option<Error>, ghost after: map<Dict, Path>)
    requires Mirrors(root, home, tree)
    modifies home.Keys
    ensures error.Some? ==> Put(tree, Segments(entry.0), entry.1) == Err(error.value)
    ensures error.None? ==>
              && Put(tree, Segments(entry.0), entry.1).Ok?
              && Mirrors(root, after, Put(tree, Segments(entry.0), entry.1).value)
    ensures forall d :: d in after && d !in home ==> fresh(d)
  {
    after := home;
    var segments := Segments(entry.0);
    if segments == [] {
      return Some(NoSegments), after;
    }
    var ok;
    ok, after := Place(root, segments, entry.1, home, tree);
    error := if ok then None else Some(NotADict);
  }

  /** `_parse_form_data`: an entry that cannot be placed fails the whole parse. */
  method ParseFormData(raw: seq<Entry>) returns (r: Result<Dict, Error>)
    ensures r.Ok? <==> Parsed(raw).Ok?
    ensures r.Ok? ==> fresh(r.value) && Represents(Sub(r.value), Node(Parsed(raw).value))
    ensures r.Err? ==> Parsed(raw) == Err(r.error)
  {
    var tree := new Dict();
    ghost var home := map[tree := []];
    ghost var parsed: map<string, Tree> := map[];
    for i := 0 to |raw|
      invariant Parsed(raw[..i]) == Ok(parsed)
      invariant Mirrors(tree, home, parsed)
      invariant forall d :: d in home ==> fresh(d)
    {
      assert raw[..i + 1][..i] == raw[..i];
      var error;
      error, home := PlaceEntry(tree, raw[i], home, parsed);
      if error.Some? {
        FailureSticks(raw, i + 1);
        return Err(error.value);
      }
      parsed := Put(parsed, Segments(raw[i].0), raw[i].1).value;
    }
    assert raw[..|raw|] == raw;
    MirrorsRepresent(tree, home, parsed, tree, Node(parsed));
    return Ok(tree);
  }
}
