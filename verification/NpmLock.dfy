/** dep_health.py: flattening a nested npm lockfile, and Node's lookup in the flat entries. */
module NpmLock {
  import opened Wrappers

  // ------------------------------------------------------------------ strings

  const MARK: string := "node_modules/"

  ghost predicate OccursAt(s: string, i: int) {
    0 <= i && i + |MARK| <= |s| && s[i..i + |MARK|] == MARK
  }

  /** `s.rfind("node_modules/")`, looking no further right than `i`. */
  function RFindFrom(s: string, i: int): (r: int)
    requires i + |MARK| <= |s|
    ensures -1 <= r && (r >= 0 ==> OccursAt(s, r))
    ensures forall k | r < k <= i :: !OccursAt(s, k)
    decreases i + 1
  {
    if i < 0 then -1 else if s[i..i + |MARK|] == MARK then i else RFindFrom(s, i - 1)
  }

  function RFind(s: string): (r: int)
    ensures -1 <= r <= |s| && (r >= 0 ==> OccursAt(s, r) && r < |s|)
    ensures forall k | r < k :: !OccursAt(s, k)
  {
    RFindFrom(s, |s| - |MARK|)
  }

  /** `s.rstrip("/")` */
  function RStrip(s: string): (r: string)
    ensures |r| <= |s|
  {
    if s != "" && s[|s| - 1] == '/' then RStrip(s[..|s| - 1]) else s
  }

  /** The path the lookup tries next: what encloses the last `node_modules/`. */
  function Enclosing(path: string): (r: string)
    ensures path != "" ==> |r| < |path|
  {
    var index := RFind(path);
    if index == -1 then "" else RStrip(path[..index])
  }

  /** Where `name` is installed below `prefix`. */
  function Installed(prefix: string, name: string): string {
    if prefix != "" then prefix + "/" + MARK + name else MARK + name
  }

  ghost predicate EndsInSlash(s: string) {
    s != "" && s[|s| - 1] == '/'
  }

  /** Package names as npm allows them, as far as the path encoding needs it. */
  ghost predicate GoodName(name: string) {
    name != "" && !EndsInSlash(name) && forall i :: !OccursAt(name, i)
  }

  lemma MarkShape()
    ensures |MARK| == 13 && MARK[12] == '/'
    ensures forall k | 0 <= k < 12 :: MARK[k] != '/'
  {
  }

  lemma MarkAt(s: string, i: int, j: int)
    requires OccursAt(s, i) && 0 <= j < |MARK|
    ensures s[i + j] == MARK[j]
  {
    assert s[i + j] == s[i..i + |MARK|][j];
  }

  lemma MarkWithin(before: string, name: string, k: int)
    requires OccursAt(before + name, k) && k >= |before|
    ensures OccursAt(name, k - |before|)
  {
    assert (before + name)[k..k + |MARK|] == name[k - |before|..k - |before| + |MARK|];
  }

  /** No occurrence of the marker starts inside the marker that precedes a good name. */
  lemma LastMark(prefix: string, name: string, path: string, k: int)
    requires GoodName(name) && path == prefix + MARK + name
    requires OccursAt(path, k)
    ensures k <= |prefix|
  {
    MarkShape();
    var at := |prefix|;
    if k >= at + 13 {
      MarkWithin(prefix + MARK, name, k);
    } else if k > at {
      assert OccursAt(path, at);
      MarkAt(path, at, 12);
      MarkAt(path, k, at + 12 - k);
    }
  }

  lemma EnclosingInstalled(prefix: string, name: string)
    requires GoodName(name) && !EndsInSlash(prefix)
    ensures Enclosing(Installed(prefix, name)) == prefix
    ensures Installed(prefix, name) != "" && !EndsInSlash(Installed(prefix, name))
  {
    var before := if prefix != "" then prefix + "/" else "";
    var path := Installed(prefix, name);
    assert path == before + MARK + name;
    assert path[|before|..|before| + |MARK|] == MARK;
    assert OccursAt(path, |before|);
    LastMark(before, name, path, RFind(path));
    assert path[..|before|] == before;
    if prefix != "" {
      assert before[..|before| - 1] == prefix;
      assert RStrip(before) == RStrip(prefix) == prefix;
    }
  }

  // ------------------------------------------------------------------ the nested tree

  /** A JSON object of the lockfile, in key order. Values that are not objects are `Other`. */
  datatype Deps = Nil | Cons(name: string, node: Node, rest: Deps)
  datatype Node = Other | Package(version: Option<string>, requires_: seq<string>, nested: Option<Deps>)

  /** An entry of the flat dictionary. */
  datatype Entry = Entry(version: Option<string>, dependencies: seq<string>)

  function EntryOf(node: Node): Entry
    requires node.Package?
  {
    Entry(node.version, node.requires_)
  }

  ghost function Names(deps: Deps): set<string> {
    match deps
    case Nil => {}
    case Cons(name, _, rest) => {name} + Names(rest)
  }

  /** Good names, each once per object, as `json.loads` leaves them. */
  ghost predicate WellFormed(deps: Deps) {
    match deps
    case Nil => true
    case Cons(name, node, rest) =>
      && GoodName(name) && name !in Names(rest) && WellFormed(rest)
      && (node.Package? && node.nested.Some? ==> WellFormed(node.nested.value))
  }

  /** The package reached by going down `path`, or None. */
  ghost function At(deps: Deps, path: seq<string>): (r: Option<Node>)
    ensures r.Some? ==> r.value.Package?
    decreases deps
  {
    if path == [] then None else
      match deps
      case Nil => None
      case Cons(name, node, rest) =>
        if name != path[0] then At(rest, path)
        else if !node.Package? then None
        else if |path| == 1 then Some(node)
        else if node.nested.None? then None
        else At(node.nested.value, path[1..])
  }

  /** A package at `path` and everything nested in it. */
  function FlattenNode(node: Node, path: string): map<string, Entry>
    requires node.Package?
    decreases node
  {
    map[path := EntryOf(node)] + if node.nested.Some? then Flatten(node.nested.value, path) else map[]
  }

  /** `walk(tree, prefix)` into an empty dictionary; later assignments win. */
  function Flatten(deps: Deps, prefix: string): map<string, Entry>
    decreases deps
  {
    match deps
    case Nil => map[]
    case Cons(name, node, rest) =>
      (if node.Package? then FlattenNode(node, Installed(prefix, name)) else map[]) + Flatten(rest, prefix)
  }

  lemma MapsAssociate<K, V>(a: map<K, V>, b: map<K, V>, c: map<K, V>)
    ensures a + (b + c) == a + b + c
  {
  }

  class Entries {
    var entries: map<string, Entry>

    constructor ()
      ensures entries == map[]
    {
      entries := map[];
    }

    /** The body of the loop of `walk`, for a package. */
    method WalkPackage(node: Node, path: string)
      requires node.Package?
      modifies this
      ensures entries == old(entries) + FlattenNode(node, path)
      decreases node
    {
      ghost var nested := if node.nested.Some? then Flatten(node.nested.value, path) else map[];
      MapsAssociate(entries, map[path := EntryOf(node)], nested);
      assert entries + map[path := EntryOf(node)] == entries[path := EntryOf(node)];
      entries := entries[path := EntryOf(node)];
      if node.nested.Some? {
        Walk(node.nested.value, path);
      }
    }

    /** `walk`: one loop over the object, recursing into nested objects as it goes. */
    method Walk(tree: Deps, prefix: string)
      modifies this
      ensures entries == old(entries) + Flatten(tree, prefix)
      decreases tree
    {
      var rest := tree;
      while rest.Cons?
        invariant rest == tree || rest < tree
        invariant entries + Flatten(rest, prefix) == old(entries) + Flatten(tree, prefix)
        decreases rest
      {
        if rest.node.Package? {
          MapsAssociate(entries, FlattenNode(rest.node, Installed(prefix, rest.name)), Flatten(rest.rest, prefix));
          WalkPackage(rest.node, Installed(prefix, rest.name));
        }
        rest := rest.rest;
      }
    }

    /** `_node_resolve`: from `fromPath` outwards until some enclosing `node_modules` has the name. */
    method NodeResolve(fromPath: string, name: string) returns (r: Option<string>)
      ensures r == Resolved(entries, fromPath, name)
    {
      var path := fromPath;
      while true
        invariant Resolved(entries, path, name) == Resolved(entries, fromPath, name)
        decreases |path|
      {
        var candidate := Installed(path, name);
        if candidate in entries {
          return Some(candidate);
        }
        if path == "" {
          return None;
        }
        path := Enclosing(path);
      }
    }
  }

  function Resolved(entries: map<string, Entry>, path: string, name: string): Option<string>
    decreases |path|
  {
    if Installed(path, name) in entries then Some(Installed(path, name))
    else if path == "" then None
    else Resolved(entries, Enclosing(path), name)
  }

  // ------------------------------------------------------------------ meaning

  ghost predicate GoodPath(path: seq<string>) {
    forall i | 0 <= i < |path| :: GoodName(path[i])
  }

  /** The install path of the package reached by going down `path`. */
  ghost function Place(path: seq<string>): string {
    if path == [] then "" else Installed(Place(path[..|path| - 1]), path[|path| - 1])
  }

  lemma {:induction false} PlaceShape(path: seq<string>)
    requires GoodPath(path)
    ensures !EndsInSlash(Place(path)) && (Place(path) == "" <==> path == [])
    ensures path != [] ==> Enclosing(Place(path)) == Place(path[..|path| - 1])
  {
    if path != [] {
      PlaceShape(path[..|path| - 1]);
      EnclosingInstalled(Place(path[..|path| - 1]), path[|path| - 1]);
    }
  }

  lemma InstalledInjective(prefix: string, a: string, b: string)
    requires Installed(prefix, a) == Installed(prefix, b)
    ensures a == b
  {
    var before := if prefix != "" then prefix + "/" + MARK else MARK;
    assert Installed(prefix, a)[|before|..] == a && Installed(prefix, b)[|before|..] == b;
  }

  /** Different positions in the tree have different install paths. */
  lemma {:induction false} PlaceInjective(p: seq<string>, q: seq<string>)
    requires GoodPath(p) && GoodPath(q) && Place(p) == Place(q)
    ensures p == q
    decreases |p|
  {
    PlaceShape(p);
    PlaceShape(q);
    if p != [] && q != [] {
      PlaceInjective(p[..|p| - 1], q[..|q| - 1]);
      InstalledInjective(Place(p[..|p| - 1]), p[|p| - 1], q[|q| - 1]);
      assert p == p[..|p| - 1] + [p[|p| - 1]] && q == q[..|q| - 1] + [q[|q| - 1]];
    }
  }

  lemma PlaceInjectiveBelow(above: seq<string>, p: seq<string>, q: seq<string>)
    requires GoodPath(above) && GoodPath(p) && GoodPath(q) && Place(above + p) == Place(above + q)
    ensures p == q
  {
    PlaceInjective(above + p, above + q);
    assert p == (above + p)[|above|..] && q == (above + q)[|above|..];
  }

  lemma {:induction false} AtGood(deps: Deps, path: seq<string>)
    requires WellFormed(deps) && At(deps, path).Some?
    ensures path != [] && GoodPath(path) && path[0] in Names(deps)
    decreases deps
  {
    if deps.name != path[0] {
      AtGood(deps.rest, path);
    } else if |path| > 1 {
      AtGood(deps.node.nested.value, path[1..]);
      assert path == [path[0]] + path[1..];
    }
  }

  lemma PlaceBelow(above: seq<string>, name: string, path: seq<string>)
    ensures Place(above + [name]) == Installed(Place(above), name)
    ensures above + [name] + path == above + ([name] + path)
  {
    assert (above + [name])[..|above|] == above;
  }

  /** Every key `walk` writes is the install path of a package of the tree. */
  lemma {:induction false} FlattenOnly(deps: Deps, above: seq<string>, key: string) returns (path: seq<string>)
    requires WellFormed(deps) && key in Flatten(deps, Place(above))
    ensures At(deps, path).Some? && key == Place(above + path)
    decreases deps
  {
    var name, node := deps.name, deps.node;
    PlaceBelow(above, name, []);
    if key in Flatten(deps.rest, Place(above)) {
      path := FlattenOnly(deps.rest, above, key);
      AtGood(deps.rest, path);
    } else if key == Installed(Place(above), name) {
      path := [name];
    } else {
      var below := FlattenOnly(node.nested.value, above + [name], key);
      AtGood(node.nested.value, below);
      path := [name] + below;
      PlaceBelow(above, name, below);
      assert path[1..] == below;
    }
  }

  /** Every package of the tree is in the flat dictionary, under its install path. */
  lemma {:induction false} FlattenHas(deps: Deps, above: seq<string>, path: seq<string>)
    requires WellFormed(deps) && GoodPath(above) && At(deps, path).Some?
    ensures Place(above + path) in Flatten(deps, Place(above))
    ensures Flatten(deps, Place(above))[Place(above + path)] == EntryOf(At(deps, path).value)
    decreases deps
  {
    AtGood(deps, path);
    var name, node, key := deps.name, deps.node, Place(above + path);
    if name != path[0] {
      FlattenHas(deps.rest, above, path);
    } else {
      if key in Flatten(deps.rest, Place(above)) {
        var other := FlattenOnly(deps.rest, above, key);
        AtGood(deps.rest, other);
        PlaceInjectiveBelow(above, path, other);
      }
      PlaceBelow(above, name, path[1..]);
      if |path| == 1 {
        assert path == [name];
        if node.nested.Some? && key in Flatten(node.nested.value, Installed(Place(above), name)) {
          var other := FlattenOnly(node.nested.value, above + [name], key);
          AtGood(node.nested.value, other);
          PlaceInjective(above + path, above + [name] + other);
        }
      } else {
        assert path == [name] + path[1..];
        FlattenHas(node.nested.value, above + [name], path[1..]);
      }
    }
  }

  /** The flat dictionary is the tree: a good path's key is present exactly for a package of the
      tree, and holds that package. */
  lemma FlattenIsTree(tree: Deps, path: seq<string>)
    requires WellFormed(tree) && GoodPath(path)
    ensures Place(path) in Flatten(tree, "") <==> At(tree, path).Some?
    ensures At(tree, path).Some? ==>
              Flatten(tree, "")[Place(path)] == Entry(At(tree, path).value.version, At(tree, path).value.requires_)
  {
    assert [] + path == path && Place([]) == "";
    if At(tree, path).Some? {
      FlattenHas(tree, [], path);
    }
    if Place(path) in Flatten(tree, "") {
      var other := FlattenOnly(tree, [], Place(path));
      AtGood(tree, other);
      assert [] + other == other;
      PlaceInjective(path, other);
    }
  }

  /** Lexical scope in the nested tree: the package's own dependencies, then each ancestor's, then
      the root's. The answer is where the package was found. */
  ghost function Scoped(tree: Deps, scope: seq<string>, name: string): Option<seq<string>> {
    if At(tree, scope + [name]).Some? then Some(scope + [name])
    else if scope == [] then None
    else Scoped(tree, scope[..|scope| - 1], name)
  }

  /** Of the places where the name may be, from the package itself outwards to the root, scope takes the
      nearest that has it. */
  lemma {:induction false} ScopedIsNearest(tree: Deps, scope: seq<string>, name: string)
    ensures match Scoped(tree, scope, name)
            case None => forall j | 0 <= j <= |scope| :: At(tree, scope[..j] + [name]) == None
            case Some(path) => exists k ::
              && 0 <= k <= |scope| && path == scope[..k] + [name] && At(tree, path).Some?
              && forall j | k < j <= |scope| :: At(tree, scope[..j] + [name]) == None
    decreases |scope|
  {
    assert scope[..|scope|] == scope;
    if At(tree, scope + [name]).Some? {
      assert scope + [name] == scope[..|scope|] + [name];
    } else if scope != [] {
      var outer := scope[..|scope| - 1];
      ScopedIsNearest(tree, outer, name);
      assert forall j | 0 <= j <= |outer| :: outer[..j] == scope[..j];
    }
  }

  /** Install paths, spelled out. */
  lemma PlaceSpelled(above: seq<string>, name: string)
    ensures Place(above + [name]) == if Place(above) == "" then "node_modules/" + name else Place(above) + "/node_modules/" + name
  {
    PlaceBelow(above, name, []);
    assert Place(above) + "/" + MARK + name == Place(above) + "/node_modules/" + name;
  }

  /** Node's lookup in the flattened lockfile finds exactly what lexical scope finds in the tree. */
  lemma {:induction false} ResolveIsScoped(tree: Deps, scope: seq<string>, name: string)
    requires WellFormed(tree) && GoodPath(scope) && GoodName(name)
    ensures Resolved(Flatten(tree, ""), Place(scope), name) ==
              match Scoped(tree, scope, name) case None => None case Some(path) => Some(Place(path))
    decreases |scope|
  {
    PlaceBelow(scope, name, []);
    FlattenIsTree(tree, scope + [name]);
    PlaceShape(scope);
    if scope != [] {
      ResolveIsScoped(tree, scope[..|scope| - 1], name);
    }
  }

  /** The resolved key holds the package that scope finds. */
  lemma {:induction false} ScopedIsFlattened(tree: Deps, scope: seq<string>, name: string)
    requires WellFormed(tree) && GoodPath(scope) && GoodName(name) && Scoped(tree, scope, name).Some?
    ensures var path := Scoped(tree, scope, name).value;
      && At(tree, path).Some? && Place(path) in Flatten(tree, "")
      && Flatten(tree, "")[Place(path)] == EntryOf(At(tree, path).value)
    decreases |scope|
  {
    if At(tree, scope + [name]).Some? {
      FlattenIsTree(tree, scope + [name]);
    } else {
      ScopedIsFlattened(tree, scope[..|scope| - 1], name);
    }
  }

  /** Flatten a lockfile of version 1 and look a name up from a package inside it. */
  method ResolveInLock(tree: Deps, ghost scope: seq<string>, fromPath: string, name: string)
    returns (entry: Option<Entry>)
    requires WellFormed(tree) && GoodPath(scope) && GoodName(name) && fromPath == Place(scope)
    ensures match Scoped(tree, scope, name)
            case None => entry == None
            case Some(path) =>
              At(tree, path).Some? && entry == Some(Entry(At(tree, path).value.version, At(tree, path).value.requires_))
  {
    var flat := new Entries();
    flat.Walk(tree, "");
    var key := flat.NodeResolve(fromPath, name);
    assert flat.entries == Flatten(tree, "");
    ResolveIsScoped(tree, scope, name);
    if key.Some? {
      ScopedIsFlattened(tree, scope, name);
      entry := Some(flat.entries[key.value]);
    } else {
      entry := None;
    }
  }
}
