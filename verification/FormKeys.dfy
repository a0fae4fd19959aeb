/**
 Bracketed form keys of server/rapidly/admin/forms.py: the names nested forms are rendered with,
 and the parser that turns submitted names back into a tree.
 */
module FormKeys {
  import opened Prelude

  // ----- names --------------------------------------------------------------------------

  type Path = seq<string>

  predicate IsBracket(c: char) {
    c == '[' || c == ']'
  }

  /** A key the printer and the parser agree on. */
  predicate CleanKey(key: string) {
    key != "" && forall i :: 0 <= i < |key| ==> !IsBracket(key[i])
  }

  predicate Clean(path: Path) {
    path != [] && forall i :: 0 <= i < |path| ==> CleanKey(path[i])
  }

  /** The name of a field nested in another. */
  function Nested(id: string, key: string): string {
    id + "[" + key + "]"
  }

  function Name(path: Path): string
    requires path != []
  {
    if |path| == 1 then path[0] else Nested(Name(path[..|path| - 1]), path[|path| - 1])
  }

  /** How many characters precede the first bracket. */
  function RunLength(s: string): (n: nat)
    ensures n <= |s|
    ensures forall i :: 0 <= i < n ==> !IsBracket(s[i])
    ensures n < |s| ==> IsBracket(s[n])
  {
    if s == "" || IsBracket(s[0]) then 0 else 1 + RunLength(s[1..])
  }

  /** The maximal runs of characters that are not brackets, as the regular expression finds them. */
  function Segments(s: string): Path
    decreases |s|
  {
    if s == "" then []
    else if IsBracket(s[0]) then Segments(s[1..])
    else [s[..RunLength(s)]] + Segments(s[RunLength(s)..])
  }

  lemma RunLengthIs(s: string, n: nat)
    requires n <= |s| && (forall i :: 0 <= i < n ==> !IsBracket(s[i])) && (n < |s| ==> IsBracket(s[n]))
    ensures RunLength(s) == n
  {
  }

  /** A bracket separates: what comes before it and after it is split independently. */
  lemma {:induction false} SegmentsSplit(s: string, t: string)
    requires t != "" && IsBracket(t[0])
    ensures Segments(s + t) == Segments(s) + Segments(t)
    decreases |s|
  {
    if s == "" {
      assert s + t == t;
    } else if IsBracket(s[0]) {
      SegmentsSplit(s[1..], t);
      assert (s + t)[1..] == s[1..] + t;
    } else {
      var n := RunLength(s);
      SegmentsSplit(s[n..], t);
      RunSplit(s, t);
    }
  }

  /** The first run of characters ends before the bracket. */
  lemma RunSplit(s: string, t: string)
    requires s != "" && !IsBracket(s[0]) && t != "" && IsBracket(t[0])
    ensures Segments(s + t) == [s[..RunLength(s)]] + Segments(s[RunLength(s)..] + t)
  {
    var n := RunLength(s);
    RunLengthIs(s + t, n);
    assert (s + t)[..n] == s[..n] && (s + t)[n..] == s[n..] + t;
  }

  /**
   How any string is split: brackets are dropped one by one, and a run of other characters up to
   the next bracket, or the end, is one segment.
   */
  lemma SegmentsExactly(key: string, rest: string)
    requires forall i :: 0 <= i < |key| ==> key[i] != '[' && key[i] != ']'
    requires rest == "" || rest[0] == '[' || rest[0] == ']'
    ensures key != "" ==> Segments(key + rest) == [key] + Segments(rest)
    ensures rest != "" ==> Segments(rest) == Segments(rest[1..])
    ensures Segments("") == []
  {
    RunLengthIs(key + rest, |key|);
    assert (key + rest)[..|key|] == key && (key + rest)[|key|..] == rest;
  }

  lemma SegmentsOfKey(key: string)
    requires CleanKey(key)
    ensures Segments(key) == [key]
  {
    RunLengthIs(key, |key|);
    assert key[..|key|] == key && key[|key|..] == "";
  }

  /** Splitting the name of a path gives the path. */
  lemma {:induction false} SegmentsOfName(path: Path)
    requires Clean(path)
    ensures Segments(Name(path)) == path
  {
    var n := |path| - 1;
    if n == 0 {
      SegmentsOfKey(path[0]);
    } else {
      SegmentsOfName(path[..n]);
      SegmentsOfNested(Name(path[..n]), path[n]);
    }
  }

  lemma SegmentsOfNested(id: string, key: string)
    requires CleanKey(key)
    ensures Segments(Nested(id, key)) == Segments(id) + [key]
  {
    var t := "[" + key + "]";
    SegmentsOfBracketed(key);
    SegmentsSplit(id, t);
    assert Nested(id, key) == id + t;
  }

  lemma SegmentsOfBracketed(key: string)
    requires CleanKey(key)
    ensures Segments("[" + key + "]") == [key]
  {
    var s := "[" + key + "]";
    assert s[1..] == key + "]";
    SegmentsSplit(key, "]");
    SegmentsOfKey(key);
    assert "]"[1..] == "";
  }

  // ----- trees and the parser -----------------------------------------------------------

  datatype Tree = Leaf(value: string) | Node(children: map<string, Tree>)

  datatype Error = NoSegments | NotADict

  /** Walks down the path, adding empty dicts where there is nothing, and assigns at its end. */
  function Put(tree: map<string, Tree>, path: Path, value: string): Result<map<string, Tree>, Error>
    decreases |path|
  {
    if path == [] then Err(NoSegments)
    else if |path| == 1 then Ok(tree[path[0] := Leaf(value)])
    else
      var child := if path[0] in tree then tree[path[0]] else Node(map[]);
      if child.Leaf? then Err(NotADict)
      else
        var r := Put(child.children, path[1..], value);
        if r.Err? then r else Ok(tree[path[0] := Node(r.value)])
  }

  type Entry = (string, string)

  function Parsed(raw: seq<Entry>): Result<map<string, Tree>, Error> {
    if raw == [] then Ok(map[])
    else
      var before := Parsed(raw[..|raw| - 1]);
      var last := raw[|raw| - 1];
      if before.Err? then before else Put(before.value, Segments(last.0), last.1)
  }

  lemma {:induction false} FailureSticks(raw: seq<Entry>, n: nat)
    requires n <= |raw| && Parsed(raw[..n]).Err?
    ensures Parsed(raw) == Parsed(raw[..n])
    decreases |raw| - n
  {
    if n == |raw| {
      assert raw[..n] == raw;
    } else {
      assert raw[..n + 1][..n] == raw[..n];
      FailureSticks(raw, n + 1);
    }
  }

  // ----- leaves -------------------------------------------------------------------------

  /** The value at the end of a path. */
  function Lookup(tree: Tree, path: Path): Option<string>
    decreases |path|
  {
    match tree
    case Leaf(value) => if path == [] then Some(value) else None
    case Node(children) =>
      if path == [] || path[0] !in children then None else Lookup(children[path[0]], path[1..])
  }

  predicate IsPrefix(p: Path, q: Path) {
    |p| <= |q| && q[..|p|] == p
  }

  /** No leaf lies properly above the end of the path. */
  ghost predicate Unobstructed(tree: Tree, path: Path) {
    forall n :: 0 <= n < |path| ==> Lookup(tree, path[..n]).None?
  }

  /** After a path is put, it has its value, what lay below it is gone, and the rest is unchanged. */
  lemma {:induction false} PutLookup(tree: map<string, Tree>, path: Path, value: string, q: Path)
    requires Put(tree, path, value).Ok?
    ensures Lookup(Node(Put(tree, path, value).value), q) ==
            if q == path then Some(value)
            else if IsPrefix(path, q) then None
            else Lookup(Node(tree), q)
    decreases |path|
  {
    var after := Put(tree, path, value).value;
    if q != [] && q[0] == path[0] {
      assert path == [path[0]] + path[1..] && q == [q[0]] + q[1..];
      if |path| == 1 {
        assert IsPrefix(path, q) by {
          assert q[..1] == path;
        }
      } else {
        var child := if path[0] in tree then tree[path[0]] else Node(map[]);
        PutLookup(child.children, path[1..], value, q[1..]);
        assert q == path <==> q[1..] == path[1..];
        assert IsPrefix(path, q) <==> IsPrefix(path[1..], q[1..]) by {
          if |path| <= |q| {
            assert q[..|path|] == [q[0]] + q[1..][..|path| - 1];
          }
        }
      }
    } else {
      assert q != path;
      assert !IsPrefix(path, q);
    }
  }

  /** A path can be put exactly when it has a segment and no leaf is in its way. */
  lemma {:induction false} PutSucceedsExactly(tree: map<string, Tree>, path: Path, value: string)
    ensures Put(tree, path, value).Ok? <==> path != [] && Unobstructed(Node(tree), path)
    decreases |path|
  {
    if |path| > 1 {
      var child := if path[0] in tree then tree[path[0]] else Node(map[]);
      if child.Leaf? {
        assert path[..1][1..] == [];
        assert Lookup(Node(tree), path[..1]).Some?;
      } else {
        PutSucceedsExactly(child.children, path[1..], value);
        forall n | 0 <= n < |path| - 1
          ensures Lookup(child, path[1..][..n]) == Lookup(Node(tree), path[..n + 1])
        {
          assert path[..n + 1][1..] == path[1..][..n] && path[..n + 1][0] == path[0];
        }
        if Unobstructed(child, path[1..]) {
          forall n | 0 <= n < |path| ensures Lookup(Node(tree), path[..n]).None? {
            if n > 0 {
              assert Lookup(child, path[1..][..n - 1]).None?;
            }
          }
        }
      }
    }
  }

  // ----- trees without empty dicts ------------------------------------------------------

  predicate Full(tree: Tree) {
    tree.Node? ==> tree.children != map[] && forall k :: k in tree.children ==> Full(tree.children[k])
  }

  /** The tree itself may be an empty dict, nothing in it is. */
  predicate FullChildren(children: map<string, Tree>) {
    forall k :: k in children ==> Full(children[k])
  }

  lemma {:induction false} PutKeepsFull(tree: map<string, Tree>, path: Path, value: string)
    requires FullChildren(tree) && Put(tree, path, value).Ok?
    ensures FullChildren(Put(tree, path, value).value) && Put(tree, path, value).value != map[]
    decreases |path|
  {
    var after := Put(tree, path, value).value;
    assert path[0] in after;
    if |path| > 1 {
      var child := if path[0] in tree then tree[path[0]] else Node(map[]);
      PutKeepsFull(child.children, path[1..], value);
    }
  }

  lemma {:induction false} FullHasLeaf(tree: Tree) returns (path: Path)
    requires Full(tree)
    ensures Lookup(tree, path).Some?
  {
    if tree.Leaf? {
      path := [];
    } else {
      var k :| k in tree.children;
      var below := FullHasLeaf(tree.children[k]);
      path := [k] + below;
      assert path[1..] == below;
    }
  }

  lemma LookupBelow(children: map<string, Tree>, k: string, path: Path)
    requires k in children
    ensures Lookup(Node(children), [k] + path) == Lookup(children[k], path)
  {
    assert ([k] + path)[1..] == path;
  }

  lemma SameLeavesSameKeys(a: map<string, Tree>, b: map<string, Tree>)
    requires FullChildren(a)
    requires forall path :: Lookup(Node(a), path) == Lookup(Node(b), path)
    ensures a.Keys <= b.Keys
  {
    forall k | k in a ensures k in b {
      var below := FullHasLeaf(a[k]);
      LookupBelow(a, k, below);
      assert Lookup(Node(b), [k] + below).Some?;
    }
  }

  lemma LookupsBelow(a: map<string, Tree>, b: map<string, Tree>, k: string)
    requires k in a && k in b
    requires forall path :: Lookup(Node(a), path) == Lookup(Node(b), path)
    ensures forall path :: Lookup(a[k], path) == Lookup(b[k], path)
  {
    forall path ensures Lookup(a[k], path) == Lookup(b[k], path) {
      LookupBelow(a, k, path);
      LookupBelow(b, k, path);
    }
  }

  /** Trees without empty dicts below them are determined by their leaves. */
  lemma {:induction false} SameLeavesSameTree(a: Tree, b: Tree)
    requires a.Node? ==> FullChildren(a.children)
    requires b.Node? ==> FullChildren(b.children)
    requires forall path :: Lookup(a, path) == Lookup(b, path)
    ensures a == b
    decreases a
  {
    assert Lookup(a, []) == Lookup(b, []);
    if a.Node? {
      SameLeavesSameKeys(a.children, b.children);
      SameLeavesSameKeys(b.children, a.children);
      forall k | k in a.children ensures a.children[k] == b.children[k] {
        LookupsBelow(a.children, b.children, k);
        SameLeavesSameTree(a.children[k], b.children[k]);
      }
    }
  }

  // ----- parsing in any order -----------------------------------------------------------

  /** Paths of which neither is above the other, unless they are the same with the same value. */
  ghost predicate Compatible(p: Path, v: string, q: Path, w: string) {
    IsPrefix(p, q) ==> p == q && v == w
  }

  ghost predicate AllCompatible(raw: seq<Entry>) {
    forall d, e :: d in raw && e in raw ==> Compatible(Segments(d.0), d.1, Segments(e.0), e.1)
  }

  /** What parsing compatible entries gives: exactly their values at exactly their paths. */
  lemma {:induction false} ParsedLookup(raw: seq<Entry>)
    requires AllCompatible(raw) && forall e :: e in raw ==> Segments(e.0) != []
    ensures Parsed(raw).Ok? && FullChildren(Parsed(raw).value)
    ensures forall path, v :: Lookup(Node(Parsed(raw).value), path) == Some(v) <==>
                                exists e :: e in raw && Segments(e.0) == path && e.1 == v
  {
    if raw != [] {
      var n := |raw| - 1;
      var past, last := raw[..n], raw[n];
      var path := Segments(last.0);
      assert forall e :: e in raw <==> e in past || e == last;
      ParsedLookup(past);
      var tree := Parsed(past).value;
      LastUnobstructed(raw);
      PutSucceedsExactly(tree, path, last.1);
      PutKeepsFull(tree, path, last.1);
      forall q, v
        ensures Lookup(Node(Parsed(raw).value), q) == Some(v) <==> exists e :: e in raw && Segments(e.0) == q && e.1 == v
      {
        PutLookup(tree, path, last.1, q);
        LastLookup(raw, q, v);
      }
    }
  }

  lemma LastUnobstructed(raw: seq<Entry>)
    requires AllCompatible(raw) && raw != []
    requires var past := raw[..|raw| - 1];
             && Parsed(past).Ok?
             && forall path, v :: Lookup(Node(Parsed(past).value), path) == Some(v) <==>
                                    exists e :: e in past && Segments(e.0) == path && e.1 == v
    ensures Unobstructed(Node(Parsed(raw[..|raw| - 1]).value), Segments(raw[|raw| - 1].0))
  {
    var n := |raw| - 1;
    var past, last := raw[..n], raw[n];
    var path := Segments(last.0);
    forall m, e | 0 <= m < |path| && e in past ensures Segments(e.0) != path[..m] {
      assert e in raw && last in raw;
      assert Compatible(Segments(e.0), e.1, path, last.1);
    }
  }

  /** The lookups after the last entry, in terms of the entries. */
  lemma LastLookup(raw: seq<Entry>, q: Path, v: string)
    requires AllCompatible(raw) && raw != []
    requires var past := raw[..|raw| - 1];
             && Parsed(past).Ok?
             && forall path, w :: Lookup(Node(Parsed(past).value), path) == Some(w) <==>
                                    exists e :: e in past && Segments(e.0) == path && e.1 == w
    ensures var past, last := raw[..|raw| - 1], raw[|raw| - 1];
            var path := Segments(last.0);
            (if q == path then last.1 == v
             else if IsPrefix(path, q) then false
             else Lookup(Node(Parsed(past).value), q) == Some(v)) <==>
            exists e :: e in raw && Segments(e.0) == q && e.1 == v
  {
    var past, last := raw[..|raw| - 1], raw[|raw| - 1];
    var path := Segments(last.0);
    assert forall e :: e in raw <==> e in past || e == last;
    if e :| e in raw && Segments(e.0) == q && e.1 == v {
      assert Compatible(path, last.1, Segments(e.0), e.1);
    }
  }

  // ----- forms --------------------------------------------------------------------------

  /** A form's fields in order; a sub-form is a field with fields of its own. */
  datatype Field = Input(value: string) | SubForm(fields: seq<Labelled>)

  datatype Labelled = Labelled(key: string, field: Field)

  /** The names the renderer gives to the inputs of a field, with their values. */
  function Rendered(id: string, field: Field): seq<Entry>
    decreases field, 1
  {
    match field
    case Input(value) => [(id, value)]
    case SubForm(fields) => RenderedFields(id, fields)
  }

  function RenderedFields(id: string, fields: seq<Labelled>): seq<Entry>
    decreases fields, 0
  {
    if fields == [] then []
    else Rendered(Nested(id, fields[0].key), fields[0].field) + RenderedFields(id, fields[1..])
  }

  /** The whole form: the top-level names are the keys themselves. */
  function RenderedForm(fields: seq<Labelled>): seq<Entry> {
    if fields == [] then []
    else Rendered(fields[0].key, fields[0].field) + RenderedForm(fields[1..])
  }

  /** The tree a form's values stand for. */
  function TreeOf(field: Field): Tree
    decreases field, 1
  {
    match field
    case Input(value) => Leaf(value)
    case SubForm(fields) => Node(ChildrenOf(fields))
  }

  function ChildrenOf(fields: seq<Labelled>): map<string, Tree>
    decreases fields, 0
  {
    if fields == [] then map[]
    else ChildrenOf(fields[1..])[fields[0].key := TreeOf(fields[0].field)]
  }

  /** Clean keys, each used once in its fieldset, and no sub-form without fields. */
  predicate WellFormed(field: Field)
    decreases field, 1
  {
    field.SubForm? ==> field.fields != [] && WellFormedFields(field.fields)
  }

  predicate WellFormedFields(fields: seq<Labelled>)
    decreases fields, 0
  {
    fields != [] ==>
      && CleanKey(fields[0].key) && WellFormed(fields[0].field)
      && (forall i :: 1 <= i < |fields| ==> fields[i].key != fields[0].key)
      && WellFormedFields(fields[1..])
  }

  lemma {:induction false} KeyAbsent(fields: seq<Labelled>, key: string)
    requires forall i :: 0 <= i < |fields| ==> fields[i].key != key
    ensures key !in ChildrenOf(fields)
  {
    if fields != [] {
      KeyAbsent(fields[1..], key);
    }
  }

  lemma {:induction false} TreeOfFull(field: Field)
    requires WellFormed(field)
    ensures Full(TreeOf(field))
    decreases field, 1
  {
    if field.SubForm? {
      ChildrenOfFull(field.fields);
      assert field.fields[0].key in ChildrenOf(field.fields);
    }
  }

  lemma {:induction false} ChildrenOfFull(fields: seq<Labelled>)
    requires WellFormedFields(fields)
    ensures FullChildren(ChildrenOf(fields))
    decreases fields, 0
  {
    if fields != [] {
      TreeOfFull(fields[0].field);
      ChildrenOfFull(fields[1..]);
    }
  }

  /** `e` is the leaf of `tree` at some path below `prefix`, under the name of the whole path. */
  ghost predicate Names(e: Entry, prefix: Path, tree: Tree) {
    exists path :: NamesAt(e, prefix, tree, path)
  }

  predicate CleanAll(path: Path) {
    forall i :: 0 <= i < |path| ==> CleanKey(path[i])
  }

  lemma NameOfNested(prefix: Path, key: string)
    requires prefix != []
    ensures Name(prefix + [key]) == Name(prefix) + "[" + key + "]"
  {
    assert (prefix + [key])[..|prefix|] == prefix;
  }

  /** The renderer names exactly the leaves of the tree. */
  lemma {:induction false} RenderedNames(prefix: Path, field: Field, e: Entry)
    requires WellFormed(field) && prefix != []
    ensures e in Rendered(Name(prefix), field) <==> Names(e, prefix, TreeOf(field))
    decreases field, 1
  {
    match field
    case Input(value) =>
      assert prefix + [] == prefix;
      if e == (Name(prefix), value) {
        assert NamesAt(e, prefix, TreeOf(field), []);
      }
    case SubForm(fields) =>
      RenderedFieldsNames(prefix, fields, e);
  }

  lemma {:induction false} RenderedFieldsNames(prefix: Path, fields: seq<Labelled>, e: Entry)
    requires WellFormedFields(fields) && prefix != []
    ensures e in RenderedFields(Name(prefix), fields) <==> Names(e, prefix, Node(ChildrenOf(fields)))
    decreases fields, 0
  {
    if fields != [] {
      var key := fields[0].key;
      NameOfNested(prefix, key);
      RenderedNames(prefix + [key], fields[0].field, e);
      RenderedFieldsNames(prefix, fields[1..], e);
      FirstOrRest(prefix, fields, e);
    }
  }

  ghost predicate NamesAt(e: Entry, prefix: Path, tree: Tree, path: Path) {
    prefix + path != [] && e.0 == Name(prefix + path) && Lookup(tree, path) == Some(e.1) && CleanAll(path)
  }

  lemma NamesBelow(e: Entry, prefix: Path, children: map<string, Tree>, key: string, path: Path)
    requires key in children && CleanKey(key)
    ensures NamesAt(e, prefix, Node(children), [key] + path) <==> NamesAt(e, prefix + [key], children[key], path)
  {
    LookupBelow(children, key, path);
    assert prefix + [key] + path == prefix + ([key] + path);
    assert forall i :: 0 <= i < |path| ==> ([key] + path)[i + 1] == path[i];
    if CleanAll([key] + path) {
      forall i | 0 <= i < |path| ensures CleanKey(path[i]) {
        assert CleanKey(([key] + path)[i + 1]);
      }
    }
  }

  lemma NamesElsewhere(e: Entry, prefix: Path, children: map<string, Tree>, key: string, tree: Tree, path: Path)
    requires key !in children
    requires path == [] || path[0] != key
    ensures NamesAt(e, prefix, Node(children[key := tree]), path) <==> NamesAt(e, prefix, Node(children), path)
  {
  }

  /** A leaf of a fieldset is one of its first field or one of the others. */
  lemma FirstOrRest(prefix: Path, fields: seq<Labelled>, e: Entry)
    requires WellFormedFields(fields) && fields != []
    ensures Names(e, prefix, Node(ChildrenOf(fields))) <==>
            || Names(e, prefix + [fields[0].key], TreeOf(fields[0].field))
            || Names(e, prefix, Node(ChildrenOf(fields[1..])))
  {
    var all, rest, key := ChildrenOf(fields), ChildrenOf(fields[1..]), fields[0].key;
    var first := TreeOf(fields[0].field);
    KeyAbsent(fields[1..], key);
    if Names(e, prefix, Node(all)) {
      var path :| NamesAt(e, prefix, Node(all), path);
      if path[0] == key {
        assert path == [key] + path[1..];
        NamesBelow(e, prefix, all, key, path[1..]);
      } else {
        NamesElsewhere(e, prefix, rest, key, first, path);
      }
    }
    if Names(e, prefix + [key], first) {
      var path :| NamesAt(e, prefix + [key], first, path);
      NamesBelow(e, prefix, all, key, path);
    }
    if Names(e, prefix, Node(rest)) {
      var path :| NamesAt(e, prefix, Node(rest), path);
      NamesElsewhere(e, prefix, rest, key, first, path);
    }
  }

  lemma {:induction false} RenderedFormNames(fields: seq<Labelled>, e: Entry)
    requires WellFormedFields(fields)
    ensures e in RenderedForm(fields) <==> Names(e, [], Node(ChildrenOf(fields)))
  {
    if fields != [] {
      RenderedNames([fields[0].key], fields[0].field, e);
      RenderedFormNames(fields[1..], e);
      FirstOrRest([], fields, e);
      assert [] + [fields[0].key] == [fields[0].key];
    }
  }

  /** A named leaf parses to its path. */
  lemma NamesParse(e: Entry, tree: Tree) returns (path: Path)
    requires Names(e, [], tree)
    ensures path != [] && Segments(e.0) == path && Lookup(tree, path) == Some(e.1)
  {
    path :| NamesAt(e, [], tree, path);
    assert [] + path == path;
    SegmentsOfName(path);
  }

  /** Keys of the tree are clean all the way down a leaf's path. */
  lemma {:induction false} LeafPathsClean(field: Field, path: Path)
    requires WellFormed(field) && Lookup(TreeOf(field), path).Some?
    ensures CleanAll(path)
    decreases field, 1
  {
    if field.SubForm? {
      ChildPathsClean(field.fields, path);
    }
  }

  lemma {:induction false} ChildPathsClean(fields: seq<Labelled>, path: Path)
    requires WellFormedFields(fields) && Lookup(Node(ChildrenOf(fields)), path).Some?
    ensures CleanAll(path)
    decreases fields, 0
  {
    if path[0] == fields[0].key {
      LeafPathsClean(fields[0].field, path[1..]);
      assert path == [path[0]] + path[1..];
    } else {
      ChildPathsClean(fields[1..], path);
    }
  }

  lemma {:induction false} LeavesNotNested(tree: Tree, p: Path, q: Path)
    requires Lookup(tree, p).Some? && Lookup(tree, q).Some? && IsPrefix(p, q)
    ensures p == q
    decreases |p|
  {
    if p != [] {
      assert q[..|p|][0] == q[0] && p[1..] == q[1..][..|p| - 1];
      LeavesNotNested(tree.children[p[0]], p[1..], q[1..]);
      assert p == [p[0]] + p[1..] && q == [q[0]] + q[1..];
    }
  }

  /**
   The round trip: whatever order the inputs of a well-formed form are submitted in, and however
   often one is repeated, parsing them gives back the form's tree.
   */
  lemma FormRoundTrip(fields: seq<Labelled>, raw: seq<Entry>)
    requires WellFormedFields(fields)
    requires forall e :: e in raw <==> e in RenderedForm(fields)
    ensures Parsed(raw) == Ok(ChildrenOf(fields))
  {
    var tree := Node(ChildrenOf(fields));
    forall e | e in raw ensures Segments(e.0) != [] && Lookup(tree, Segments(e.0)) == Some(e.1) {
      RenderedFormNames(fields, e);
      var path := NamesParse(e, tree);
    }
    forall d, e | d in raw && e in raw ensures Compatible(Segments(d.0), d.1, Segments(e.0), e.1) {
      if IsPrefix(Segments(d.0), Segments(e.0)) {
        LeavesNotNested(tree, Segments(d.0), Segments(e.0));
      }
    }
    ParsedLookup(raw);
    var parsed := Node(Parsed(raw).value);
    forall path ensures Lookup(parsed, path) == Lookup(tree, path) {
      LeafIsSubmitted(fields, raw, path);
    }
    ChildrenOfFull(fields);
    SameLeavesSameTree(parsed, tree);
  }

  lemma LeafIsSubmitted(fields: seq<Labelled>, raw: seq<Entry>, path: Path)
    requires WellFormedFields(fields)
    requires forall e :: e in raw <==> e in RenderedForm(fields)
    requires forall e :: e in raw ==> Lookup(Node(ChildrenOf(fields)), Segments(e.0)) == Some(e.1)
    requires Parsed(raw).Ok?
    requires forall q, v :: Lookup(Node(Parsed(raw).value), q) == Some(v) <==>
                              exists e :: e in raw && Segments(e.0) == q && e.1 == v
    ensures Lookup(Node(Parsed(raw).value), path) == Lookup(Node(ChildrenOf(fields)), path)
  {
    var tree, parsed := Node(ChildrenOf(fields)), Node(Parsed(raw).value);
    if Lookup(parsed, path).Some? {
      var v := Lookup(parsed, path).value;
      var e :| e in raw && Segments(e.0) == path && e.1 == v;
    }
    if Lookup(tree, path).Some? {
      var e := (Name(path), Lookup(tree, path).value);
      ChildPathsClean(fields, path);
      assert [] + path == path;
      assert NamesAt(e, [], tree, path);
      RenderedFormNames(fields, e);
      SegmentsOfName(path);
      assert e in raw && Segments(e.0) == path;
      assert Lookup(parsed, path) == Some(e.1);
    }
  }
}
