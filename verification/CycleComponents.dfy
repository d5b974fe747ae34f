/** validation/rubric/export.py: union-find over the reported import cycles, then grouping by root. */
module CycleComponents {
  import opened Collections
  import opened Paths
  import opened Wrappers

  datatype Module = Module(id: string)

  /** One reported cycle: `modules` lists it in order, starting anywhere. */
  datatype Issue = Issue(modules: seq<Module>, severity: string)

  /** One exported component. */
  datatype Component = Component(modules: set<Module>, severities: seq<string>)

  type Links = map<Module, Module>

  ghost function RootIn(root: Links, x: Module): Module {
    if x in root then root[x] else x
  }

  ghost function RankIn(rank: map<Module, nat>, x: Module): nat {
    if x in rank then rank[x] else 0
  }

  /** A dictionary key `x` is in order: `root` names the end of its parent chain and `rank`
      grows along the chain, up to `height`. A module that is no key yet stands for itself. */
  ghost predicate Placed(parent: Links, root: Links, rank: map<Module, nat>, height: nat, x: Module) {
    if x !in parent then RootIn(root, x) == x else
      && parent[x] in parent
      && RootIn(root, x) in parent
      && parent[RootIn(root, x)] == RootIn(root, x)
      && RootIn(root, parent[x]) == RootIn(root, x)
      && RankIn(rank, x) <= height
      && (if parent[x] == x then RootIn(root, x) == x else RankIn(rank, x) < RankIn(rank, parent[x]))
  }

  /** The chains of `parent` are finite and end at `root`, however `parent` has been rewritten. */
  ghost predicate IsForest(parent: Links, root: Links, rank: map<Module, nat>, height: nat) {
    forall x {:trigger Placed(parent, root, rank, height, x)} :: Placed(parent, root, rank, height, x)
  }

  ghost function Grandparent(parent: Links, x: Module): Module {
    if x in parent && parent[x] in parent then parent[parent[x]] else x
  }

  ghost predicate Shortened(before: Links, after: Links, x: Module) {
    x in before ==> x in after && (after[x] == before[x] || after[x] == Grandparent(before, x))
  }

  lemma HalveShortens(before: Links, parent: Links, x: Module, after: Links)
    requires forall y :: Shortened(before, parent, y)
    requires x in parent && parent[x] in parent
    requires Grandparent(before, x) == parent[parent[x]]
    requires after == parent[x := parent[parent[x]]]
    ensures forall y :: Shortened(before, after, y)
  {
    forall y
      ensures Shortened(before, after, y)
    {
      assert Shortened(before, parent, y);
    }
  }

  lemma InsertShortens(older: Links, before: Links, parent: Links, start: Module)
    requires before == if start in older then older else older[start := start]
    requires forall y :: Shortened(before, parent, y)
    ensures forall y :: Shortened(older, parent, y)
  {
    forall y
      ensures Shortened(older, parent, y)
    {
      assert Shortened(before, parent, y);
    }
  }

  /** Following up to `steps` parent links. */
  ghost function Climb(parent: Links, x: Module, steps: nat): Module
    decreases steps
  {
    if steps == 0 || x !in parent || parent[x] == x then x else Climb(parent, parent[x], steps - 1)
  }

  /** The ghost `root` of a forest is where its parent links really end. */
  lemma {:induction false} ClimbEndsAtRoot(parent: Links, root: Links, rank: map<Module, nat>,
                                           height: nat, x: Module, steps: nat)
    requires IsForest(parent, root, rank, height)
    requires steps >= height - RankIn(rank, x)
    ensures Climb(parent, x, steps) == RootIn(root, x)
    decreases steps
  {
    assert Placed(parent, root, rank, height, x);
    if x in parent && parent[x] != x {
      assert Placed(parent, root, rank, height, parent[x]);
      ClimbEndsAtRoot(parent, root, rank, height, parent[x], steps - 1);
    }
  }

  lemma InsertKeepsForest(parent: Links, root: Links, rank: map<Module, nat>, height: nat, x: Module)
    requires IsForest(parent, root, rank, height) && x !in parent
    ensures IsForest(parent[x := x], root, rank, if RankIn(rank, x) > height then RankIn(rank, x) else height)
  {
    assert Placed(parent, root, rank, height, x);
    var next, top := parent[x := x], if RankIn(rank, x) > height then RankIn(rank, x) else height;
    forall y
      ensures Placed(next, root, rank, top, y)
    {
      assert Placed(parent, root, rank, height, y);
    }
  }

  lemma HalveKeepsForest(parent: Links, root: Links, rank: map<Module, nat>, height: nat, x: Module)
    requires IsForest(parent, root, rank, height) && x in parent
    ensures parent[x] in parent && parent[parent[x]] in parent
    ensures RootIn(root, parent[parent[x]]) == RootIn(root, x)
    ensures parent[x] != x ==> RankIn(rank, x) < RankIn(rank, parent[x]) <= RankIn(rank, parent[parent[x]]) <= height
    ensures IsForest(parent[x := parent[parent[x]]], root, rank, height)
  {
    assert Placed(parent, root, rank, height, x);
    assert Placed(parent, root, rank, height, parent[x]);
    assert Placed(parent, root, rank, height, parent[parent[x]]);
    var next := parent[x := parent[parent[x]]];
    forall y
      ensures Placed(next, root, rank, height, y)
    {
      assert Placed(parent, root, rank, height, y);
      assert Placed(parent, root, rank, height, RootIn(root, y));
    }
  }

  ghost function Redirected(root: Links, source: Module, target: Module): Links {
    map y | y in root.Keys + {source} :: if RootIn(root, y) == source then target else RootIn(root, y)
  }

  /** The rank of `target`, raised above that of the root linked below it. */
  ghost function Raised(rank: map<Module, nat>, source: Module, target: Module): map<Module, nat> {
    if RankIn(rank, target) <= RankIn(rank, source) then rank[target := RankIn(rank, source) + 1] else rank
  }

  lemma LinkKeepsForest(parent: Links, root: Links, rank: map<Module, nat>, height: nat,
                        source: Module, target: Module)
    requires IsForest(parent, root, rank, height)
    requires source in parent && parent[source] == source && target in parent && parent[target] == target
    requires source != target
    ensures IsForest(parent[source := target], Redirected(root, source, target),
                     Raised(rank, source, target), height + 1)
  {
    assert Placed(parent, root, rank, height, source);
    assert Placed(parent, root, rank, height, target);
    var next, root', rank' := parent[source := target], Redirected(root, source, target), Raised(rank, source, target);
    var top := height + 1;
    forall y
      ensures Placed(next, root', rank', top, y)
    {
      assert Placed(parent, root, rank, height, y);
    }
  }

  /** The class of `other` has moved to the root of `first`, and nothing else has moved. */
  ghost predicate Merged(root: Links, next: Links, other: Module, first: Module) {
    forall y :: RootIn(next, y) == if RootIn(root, y) == RootIn(root, other) then RootIn(root, first) else RootIn(root, y)
  }

  lemma RedirectionMerges(root: Links, source: Module, target: Module, other: Module, first: Module)
    requires source == RootIn(root, other) && target == RootIn(root, first)
    ensures Merged(root, if source == target then root else Redirected(root, source, target), other, first)
  {
  }

  /** The `parent` dictionary: `find` inserts a missing key on first use. */
  class Forest {
    var parent: Links
    ghost var root: Links
    ghost var rank: map<Module, nat>
    ghost var height: nat

    ghost predicate Valid()
      reads this
    {
      IsForest(parent, root, rank, height)
    }

    ghost function RootOf(x: Module): Module
      reads this
    {
      RootIn(root, x)
    }

    constructor ()
      ensures Valid() && parent == map[] && forall y :: RootOf(y) == y
    {
      parent, root, rank, height := map[], map[], map[], 0;
    }

    /** `find`: inserts `start` if needed and halves the path it walks. Every root is unchanged,
        only `start` may become a key, and a rewritten parent is the old grandparent. */
    method Find(start: Module) returns (r: Module)
      requires Valid()
      modifies this
      ensures Valid() && root == old(root)
      ensures r == RootOf(start) && r in parent && parent[r] == r
      ensures parent.Keys == old(parent.Keys) + {start}
      ensures forall y :: Shortened(old(parent), parent, y)
      ensures start in old(parent) ==> parent[start] == Grandparent(old(parent), start)
    {
      var x := start;
      if x !in parent {
        InsertKeepsForest(parent, root, rank, height, x);
        height := if RankIn(rank, x) > height then RankIn(rank, x) else height;
        parent := parent[x := x];
      }
      ghost var before := parent;
      while parent[x] != x
        invariant Valid() && root == old(root) && rank == old(rank)
        invariant x in parent && RootIn(root, x) == RootIn(root, start)
        invariant parent.Keys == before.Keys
        invariant forall y {:trigger parent[y]} | y in parent && RankIn(rank, y) >= RankIn(rank, x) :: parent[y] == before[y]
        invariant forall y :: Shortened(before, parent, y)
        invariant x == start || parent[start] == Grandparent(before, start)
        decreases height - RankIn(rank, x)
      {
        HalveKeepsForest(parent, root, rank, height, x);
        assert parent[x] == before[x] && parent[parent[x]] == before[parent[x]];
        HalveShortens(before, parent, x, parent[x := parent[parent[x]]]);
        parent := parent[x := parent[parent[x]]];
        x := parent[x];
      }
      assert Placed(parent, root, rank, height, x);
      r := x;
      InsertShortens(old(parent), before, parent, start);
    }

    /** `parent[find(other)] = find(first)`: exactly the class of `other` moves to the root of `first`. */
    method Union(other: Module, first: Module)
      requires Valid()
      modifies this
      ensures Valid()
      ensures parent.Keys == old(parent.Keys) + {other, first}
      ensures Merged(old(root), root, other, first)
    {
      var target := Find(first);
      var source := Find(other);
      assert Placed(parent, root, rank, height, first);
      RedirectionMerges(root, source, target, other, first);
      if source != target {
        LinkKeepsForest(parent, root, rank, height, source, target);
        rank := Raised(rank, source, target);
        root := Redirected(root, source, target);
        height := height + 1;
      } else {
        assert parent[source := target] == parent;
      }
      parent := parent[source := target];
    }
  }

  // ------------------------------------------------------------------ the union loop

  /** Two modules meet when one reported cycle names both. */
  ghost function Meet(issues: seq<Issue>): (Module, Module) -> bool {
    (a, b) => exists i :: 0 <= i < |issues| && a in issues[i].modules && b in issues[i].modules
  }

  ghost predicate Connected(issues: seq<Issue>, a: Module, b: Module) {
    Reach(Meet(issues), a, b)
  }

  lemma MeetConnects(issues: seq<Issue>, i: nat, a: Module, b: Module)
    requires i < |issues| && a in issues[i].modules && b in issues[i].modules
    ensures Connected(issues, a, b)
  {
    assert Meet(issues)(a, b);
    ReachStep(Meet(issues), a, b);
  }

  lemma ConnectedIsEquivalence(issues: seq<Issue>, a: Module, b: Module, c: Module)
    ensures Connected(issues, a, a)
    ensures Connected(issues, a, b) ==> Connected(issues, b, a)
    ensures Connected(issues, a, b) && Connected(issues, b, c) ==> Connected(issues, a, c)
  {
    ReachSelf(Meet(issues), a);
    if Connected(issues, a, b) {
      ReachSymmetric(Meet(issues), a, b);
      if Connected(issues, b, c) {
        ReachTrans(Meet(issues), a, b, c);
      }
    }
  }

  /** Only connected modules share a root. */
  ghost predicate Sound(issues: seq<Issue>, root: Links) {
    forall a, b {:trigger Connected(issues, a, b)} ::
      RootIn(root, a) == RootIn(root, b) ==> Connected(issues, a, b)
  }

  /** Every module of the issue has the root of its first module. */
  ghost predicate United(root: Links, modules: seq<Module>) {
    forall j :: 0 <= j < |modules| ==> RootIn(root, modules[j]) == RootIn(root, modules[0])
  }

  lemma UnionKeepsSound(issues: seq<Issue>, root: Links, next: Links, i: nat, other: Module, first: Module)
    requires Sound(issues, root)
    requires i < |issues| && other in issues[i].modules && first in issues[i].modules
    requires Merged(root, next, other, first)
    ensures Sound(issues, next)
  {
    forall a, b | RootIn(next, a) == RootIn(next, b)
      ensures Connected(issues, a, b)
    {
      MeetConnects(issues, i, other, first);
      ConnectedIsEquivalence(issues, other, first, b);
      ConnectedIsEquivalence(issues, first, other, b);
      ConnectedIsEquivalence(issues, a, other, first);
      ConnectedIsEquivalence(issues, a, first, b);
      ConnectedIsEquivalence(issues, a, other, b);
      assert RootIn(root, a) == RootIn(root, b) ==> Connected(issues, a, b);
      assert RootIn(root, a) == RootIn(root, other) ==> Connected(issues, a, other);
      assert RootIn(root, other) == RootIn(root, b) ==> Connected(issues, other, b);
      assert RootIn(root, first) == RootIn(root, b) ==> Connected(issues, first, b);
      assert RootIn(root, a) == RootIn(root, first) ==> Connected(issues, a, first);
    }
  }

  /** With every issue united, connected modules share a root. */
  lemma UnitedIsComplete(issues: seq<Issue>, root: Links, a: Module, b: Module)
    requires forall i :: 0 <= i < |issues| ==> United(root, issues[i].modules)
    requires Connected(issues, a, b)
    ensures RootIn(root, a) == RootIn(root, b)
  {
    ReachCarries(Meet(issues), x => RootIn(root, x) == RootIn(root, a), a, b);
  }

  lemma MergeKeepsUnited(root: Links, next: Links, other: Module, first: Module, modules: seq<Module>)
    requires Merged(root, next, other, first) && United(root, modules)
    ensures United(next, modules)
  {
    forall j | 0 <= j < |modules|
      ensures RootIn(next, modules[j]) == RootIn(next, modules[0])
    {
      assert RootIn(root, modules[j]) == RootIn(root, modules[0]);
    }
  }

  lemma UnitedExtends(root: Links, modules: seq<Module>, j: nat)
    requires 1 <= j < |modules| && United(root, modules[..j])
    requires RootIn(root, modules[j]) == RootIn(root, modules[0])
    ensures United(root, modules[..j + 1])
  {
    var longer := modules[..j + 1];
    forall k | 0 <= k < |longer|
      ensures RootIn(root, longer[k]) == RootIn(root, longer[0])
    {
      if k < j {
        assert longer[k] == modules[..j][k];
      }
    }
  }

  method UniteIssue(forest: Forest, ghost issues: seq<Issue>, ghost i: nat, modules: seq<Module>)
    requires i < |issues| && modules == issues[i].modules
    requires forest.Valid() && Sound(issues, forest.root)
    modifies forest
    ensures forest.Valid() && Sound(issues, forest.root) && United(forest.root, modules)
    ensures forall m :: United(old(forest.root), m) ==> United(forest.root, m)
  {
    var j := 1;
    while j < |modules|
      invariant 1 <= j
      invariant forest.Valid() && Sound(issues, forest.root)
      invariant forall m :: United(old(forest.root), m) ==> United(forest.root, m)
      invariant j <= |modules| ==> United(forest.root, modules[..j])
      invariant j > |modules| ==> |modules| == 0
    {
      ghost var before := forest.root;
      assert RootIn(before, modules[..j][0]) == RootIn(before, modules[0]);
      forest.Union(modules[j], modules[0]);
      UnionKeepsSound(issues, before, forest.root, i, modules[j], modules[0]);
      forall m | United(before, m)
        ensures United(forest.root, m)
      {
        MergeKeepsUnited(before, forest.root, modules[j], modules[0], m);
      }
      assert United(forest.root, modules[..j]);
      UnitedExtends(forest.root, modules, j);
      j := j + 1;
    }
    assert |modules| > 0 ==> modules[..j] == modules;
  }

  /** The union loop of the export, for every list of cycles. */
  method UniteIssues(forest: Forest, issues: seq<Issue>)
    requires forest.Valid() && forall y :: forest.RootOf(y) == y
    modifies forest
    ensures forest.Valid()
    ensures forall a, b {:trigger Connected(issues, a, b)} :: forest.RootOf(a) == forest.RootOf(b) <==> Connected(issues, a, b)
  {
    forall a, b | RootIn(forest.root, a) == RootIn(forest.root, b)
      ensures Connected(issues, a, b)
    {
      assert forest.RootOf(a) == a && forest.RootOf(b) == b;
      ConnectedIsEquivalence(issues, a, a, a);
    }
    var i := 0;
    while i < |issues|
      invariant 0 <= i <= |issues|
      invariant forest.Valid() && Sound(issues, forest.root)
      invariant forall k :: 0 <= k < i ==> United(forest.root, issues[k].modules)
    {
      UniteIssue(forest, issues, i, issues[i].modules);
      i := i + 1;
    }
    forall a, b
      ensures forest.RootOf(a) == forest.RootOf(b) <==> Connected(issues, a, b)
    {
      if Connected(issues, a, b) {
        UnitedIsComplete(issues, forest.root, a, b);
      }
    }
  }

  // ------------------------------------------------------------------ grouping by root

  ghost function AllModules(issues: seq<Issue>): set<Module> {
    set i, m | 0 <= i < |issues| && m in issues[i].modules :: m
  }

  /** The distinct roots of the issues, in order of first appearance: the keys of `components`. */
  ghost function Roots(issues: seq<Issue>, root: Links): seq<Module>
    requires AllNamed(issues)
  {
    if issues == [] then [] else
      var earlier := Roots(issues[..|issues| - 1], root);
      var r := RootIn(root, issues[|issues| - 1].modules[0]);
      if r in earlier then earlier else earlier + [r]
  }

  /** The cycles with the given root, in order. */
  ghost function Rooted(issues: seq<Issue>, root: Links, r: Module): seq<Issue>
    requires AllNamed(issues)
  {
    if issues == [] then [] else
      var last := issues[|issues| - 1];
      Rooted(issues[..|issues| - 1], root, r) + if RootIn(root, last.modules[0]) == r then [last] else []
  }

  ghost function Severities(issues: seq<Issue>): (s: seq<string>)
    ensures |s| == |issues|
  {
    seq(|issues|, i requires 0 <= i < |issues| => issues[i].severity)
  }

  ghost function ComponentOf(issues: seq<Issue>, root: Links, r: Module): Component
    requires AllNamed(issues)
  {
    Component(AllModules(Rooted(issues, root, r)), Severities(Rooted(issues, root, r)))
  }

  lemma ComponentExtends(rooted: seq<Issue>, issue: Issue)
    ensures AllModules(rooted + [issue]) == AllModules(rooted) + set m | m in issue.modules
    ensures Severities(rooted + [issue]) == Severities(rooted) + [issue.severity]
  {
    var longer := rooted + [issue];
    assert forall i | 0 <= i < |rooted| :: longer[i] == rooted[i];
    assert longer[|rooted|] == issue;
  }

  lemma RootedNowhere(issues: seq<Issue>, root: Links, r: Module)
    requires AllNamed(issues)
    ensures r !in Roots(issues, root) <==> Rooted(issues, root, r) == []
  {
  }

  ghost predicate AllNamed(issues: seq<Issue>) {
    forall issue | issue in issues :: issue.modules != []
  }

  /** The dictionary, as key order and content, after grouping `issues`. */
  ghost predicate Grouped(issues: seq<Issue>, root: Links, order: seq<Module>, entries: map<Module, Component>)
    requires AllNamed(issues)
  {
    && order == Roots(issues, root)
    && (forall r :: r in entries <==> r in order)
    && (forall r | r in entries :: entries[r] == ComponentOf(issues, root, r))
  }

  function Added(entry: Component, issue: Issue): Component {
    Component(entry.modules + (set m | m in issue.modules), entry.severities + [issue.severity])
  }

  lemma NamedExtends(issues: seq<Issue>, issue: Issue)
    requires AllNamed(issues) && issue.modules != []
    ensures AllNamed(issues + [issue])
  {
  }

  lemma RootsExtend(issues: seq<Issue>, issue: Issue, root: Links)
    requires AllNamed(issues) && issue.modules != [] && AllNamed(issues + [issue])
    ensures var r := RootIn(root, issue.modules[0]);
      Roots(issues + [issue], root) == if r in Roots(issues, root) then Roots(issues, root) else Roots(issues, root) + [r]
  {
    assert (issues + [issue])[..|issues|] == issues;
  }

  lemma RootedExtends(issues: seq<Issue>, issue: Issue, root: Links, q: Module)
    requires AllNamed(issues) && issue.modules != [] && AllNamed(issues + [issue])
    ensures Rooted(issues + [issue], root, q) ==
              Rooted(issues, root, q) + if RootIn(root, issue.modules[0]) == q then [issue] else []
  {
    assert (issues + [issue])[..|issues|] == issues;
  }

  /** The component of the new cycle's root grows by it, and the others stay. */
  lemma ComponentsExtend(issues: seq<Issue>, issue: Issue, root: Links, q: Module)
    requires AllNamed(issues) && issue.modules != [] && AllNamed(issues + [issue])
    ensures ComponentOf(issues + [issue], root, q) ==
              if RootIn(root, issue.modules[0]) == q then Added(ComponentOf(issues, root, q), issue)
              else ComponentOf(issues, root, q)
  {
    RootedExtends(issues, issue, root, q);
    ComponentExtends(Rooted(issues, root, q), issue);
    assert Rooted(issues, root, q) + [] == Rooted(issues, root, q);
  }

  lemma EmptyComponent(issues: seq<Issue>, root: Links, r: Module)
    requires AllNamed(issues) && r !in Roots(issues, root)
    ensures ComponentOf(issues, root, r) == Component({}, [])
  {
    RootedNowhere(issues, root, r);
    assert Rooted(issues, root, r) == [];
  }

  lemma GroupedStep(issues: seq<Issue>, issue: Issue, root: Links, order: seq<Module>,
                    entries: map<Module, Component>, r: Module, entry: Component)
    requires AllNamed(issues) && issue.modules != [] && r == RootIn(root, issue.modules[0])
    requires Grouped(issues, root, order, entries)
    requires entry == if r in entries then entries[r] else Component({}, [])
    ensures AllNamed(issues + [issue])
    ensures Grouped(issues + [issue], root, if r in entries then order else order + [r],
                    entries[r := Added(entry, issue)])
  {
    NamedExtends(issues, issue);
    RootsExtend(issues, issue, root);
    if r !in entries {
      EmptyComponent(issues, root, r);
    }
    var entries' := entries[r := Added(entry, issue)];
    forall q | q in entries'
      ensures entries'[q] == ComponentOf(issues + [issue], root, q)
    {
      ComponentsExtend(issues, issue, root, q);
    }
  }

  /** One turn of the second loop. */
  method GroupIssue(forest: Forest, ghost issues: seq<Issue>, issue: Issue, order0: seq<Module>, entries0: map<Module, Component>)
    returns (order: seq<Module>, entries: map<Module, Component>)
    requires forest.Valid() && issue.modules != []
    requires AllNamed(issues) && Grouped(issues, forest.root, order0, entries0)
    modifies forest
    ensures forest.Valid() && forest.root == old(forest.root)
    ensures AllNamed(issues + [issue]) && Grouped(issues + [issue], forest.root, order, entries)
  {
    var r := forest.Find(issue.modules[0]);
    var entry := if r in entries0 then entries0[r] else Component({}, []);
    GroupedStep(issues, issue, forest.root, order0, entries0, r, entry);
    order := if r in entries0 then order0 else order0 + [r];
    entries := entries0[r := Added(entry, issue)];
  }

  /** `components.values()` */
  function Listed(order: seq<Module>, entries: map<Module, Component>): seq<Component>
    requires forall r | r in order :: r in entries
  {
    seq(|order|, n requires 0 <= n < |order| => entries[order[n]])
  }

  lemma ListedComponents(issues: seq<Issue>, root: Links, order: seq<Module>, entries: map<Module, Component>)
    requires AllNamed(issues) && Grouped(issues, root, order, entries)
    ensures Listed(order, entries) == Components(issues, root)
  {
  }

  /** The second loop: an insertion-ordered dictionary of the groups, or None where a cycle
      without modules makes `involved_modules[0]` fail. Roots do not move any more. */
  method GroupIssues(forest: Forest, issues: seq<Issue>) returns (built: Option<seq<Component>>)
    requires forest.Valid()
    modifies forest
    ensures forest.Valid() && forest.root == old(forest.root)
    ensures built.Some? <==> AllNamed(issues)
    ensures built.Some? ==> built.value == Components(issues, forest.root)
  {
    var order: seq<Module>, entries: map<Module, Component> := [], map[];
    var k := 0;
    while k < |issues|
      invariant 0 <= k <= |issues|
      invariant forest.Valid() && forest.root == old(forest.root)
      invariant AllNamed(issues[..k]) && Grouped(issues[..k], forest.root, order, entries)
    {
      if issues[k].modules == [] {
        assert issues[k] in issues;
        return None;
      }
      NextPrefix(issues, k);
      order, entries := GroupIssue(forest, issues[..k], issues[k], order, entries);
      k := k + 1;
    }
    assert issues[..k] == issues;
    built := Some(Listed(order, entries));
    ListedComponents(issues, forest.root, order, entries);
  }

  /** The exported components, in dictionary order. */
  ghost function Components(issues: seq<Issue>, root: Links): seq<Component>
    requires AllNamed(issues)
  {
    seq(|Roots(issues, root)|, n requires 0 <= n < |Roots(issues, root)| =>
      ComponentOf(issues, root, Roots(issues, root)[n]))
  }

  ghost predicate RootsAreClasses(issues: seq<Issue>, root: Links) {
    forall a, b {:trigger Connected(issues, a, b)} ::
      RootIn(root, a) == RootIn(root, b) <==> Connected(issues, a, b)
  }

  // ------------------------------------------------------------------ what the components are

  ghost function SumSizes(components: seq<Component>): nat {
    if components == [] then 0 else |components[0].modules| + SumSizes(components[1..])
  }

  ghost function SumCycles(components: seq<Component>): nat {
    if components == [] then 0 else |components[0].severities| + SumCycles(components[1..])
  }

  ghost function Covered(components: seq<Component>): set<Module> {
    if components == [] then {} else components[0].modules + Covered(components[1..])
  }

  ghost predicate Disjoint(components: seq<Component>) {
    forall j, k | 0 <= j < k < |components| :: components[j].modules !! components[k].modules
  }

  lemma {:induction false} InCovered(components: seq<Component>, m: Module)
    ensures m in Covered(components) <==> exists k :: 0 <= k < |components| && m in components[k].modules
  {
    if components != [] {
      InCovered(components[1..], m);
      if k :| 0 <= k < |components| && m in components[k].modules && k > 0 {
        assert components[1..][k - 1] == components[k];
      }
    }
  }

  lemma {:induction false} DisjointSizesAdd(components: seq<Component>)
    requires Disjoint(components)
    ensures SumSizes(components) == |Covered(components)|
  {
    if components != [] {
      DisjointSizesAdd(components[1..]);
      if m :| m in components[0].modules && m in Covered(components[1..]) {
        InCovered(components[1..], m);
      }
      assert components[0].modules !! Covered(components[1..]);
    }
  }

  lemma {:induction false} RootsDistinct(issues: seq<Issue>, root: Links)
    requires AllNamed(issues)
    ensures forall j, k | 0 <= j < k < |Roots(issues, root)| :: Roots(issues, root)[j] != Roots(issues, root)[k]
    ensures forall i | 0 <= i < |issues| :: RootIn(root, issues[i].modules[0]) in Roots(issues, root)
  {
    if issues != [] {
      RootsDistinct(issues[..|issues| - 1], root);
    }
  }

  /** A cycle is filed under a root exactly if it is one of the input's and has that root. */
  lemma {:induction false} RootedContents(issues: seq<Issue>, root: Links, r: Module, issue: Issue)
    requires AllNamed(issues)
    ensures issue in Rooted(issues, root, r) <==> issue in issues && RootIn(root, issue.modules[0]) == r
  {
    if issues != [] {
      RootedContents(issues[..|issues| - 1], root, r, issue);
      assert issues == issues[..|issues| - 1] + [issues[|issues| - 1]];
    }
  }

  /** The modules of a component: those of the input whose root is the component's. */
  lemma ComponentModules(issues: seq<Issue>, root: Links, r: Module, m: Module)
    requires AllNamed(issues) && RootsAreClasses(issues, root)
    ensures m in ComponentOf(issues, root, r).modules <==> m in AllModules(issues) && RootIn(root, m) == r
  {
    var rooted := Rooted(issues, root, r);
    if m in AllModules(rooted) {
      var i :| 0 <= i < |rooted| && m in rooted[i].modules;
      RootedContents(issues, root, r, rooted[i]);
      var k :| 0 <= k < |issues| && issues[k] == rooted[i];
      MeetConnects(issues, k, issues[k].modules[0], m);
    }
    if m in AllModules(issues) && RootIn(root, m) == r {
      var k :| 0 <= k < |issues| && m in issues[k].modules;
      MeetConnects(issues, k, issues[k].modules[0], m);
      RootedContents(issues, root, r, issues[k]);
    }
  }

  lemma ComponentNotEmpty(issues: seq<Issue>, root: Links, r: Module)
    requires AllNamed(issues) && r in Roots(issues, root)
    ensures ComponentOf(issues, root, r).modules != {} && ComponentOf(issues, root, r).severities != []
  {
    RootedNowhere(issues, root, r);
    var rooted := Rooted(issues, root, r);
    assert rooted[0] in rooted;
    RootedContents(issues, root, r, rooted[0]);
    assert rooted[0].modules != [];
    assert rooted[0].modules[0] in rooted[0].modules;
    assert rooted[0].modules[0] in AllModules(rooted);
  }

  /** Two modules of the input are in one component exactly if they are connected. */
  lemma ComponentIsClass(issues: seq<Issue>, root: Links, r: Module, a: Module, b: Module)
    requires AllNamed(issues) && RootsAreClasses(issues, root) && a in ComponentOf(issues, root, r).modules
    ensures b in ComponentOf(issues, root, r).modules <==> b in AllModules(issues) && Connected(issues, a, b)
  {
    ComponentModules(issues, root, r, a);
    ComponentModules(issues, root, r, b);
    assert RootIn(root, a) == RootIn(root, b) <==> Connected(issues, a, b);
  }

  lemma ModuleHasRoot(issues: seq<Issue>, root: Links, m: Module) returns (k: nat)
    requires AllNamed(issues) && RootsAreClasses(issues, root) && m in AllModules(issues)
    ensures k < |Roots(issues, root)| && m in ComponentOf(issues, root, Roots(issues, root)[k]).modules
  {
    var i :| 0 <= i < |issues| && m in issues[i].modules;
    MeetConnects(issues, i, m, issues[i].modules[0]);
    RootsDistinct(issues, root);
    assert RootIn(root, m) == RootIn(root, issues[i].modules[0]);
    k :| 0 <= k < |Roots(issues, root)| && Roots(issues, root)[k] == RootIn(root, m);
    ComponentModules(issues, root, Roots(issues, root)[k], m);
  }

  lemma ModuleIsCovered(issues: seq<Issue>, root: Links, m: Module)
    requires AllNamed(issues) && RootsAreClasses(issues, root)
    ensures m in AllModules(issues) <==> m in Covered(Components(issues, root))
  {
    var components := Components(issues, root);
    InCovered(components, m);
    if m in AllModules(issues) {
      var k := ModuleHasRoot(issues, root, m);
      assert m in components[k].modules;
    }
    if k :| 0 <= k < |components| && m in components[k].modules {
      ComponentModules(issues, root, Roots(issues, root)[k], m);
    }
  }

  /** Each component is one class of connected modules, and every module of the input is in one. */
  lemma ComponentsAreClasses(issues: seq<Issue>, root: Links)
    requires AllNamed(issues) && RootsAreClasses(issues, root)
    ensures var components := Components(issues, root);
      && (forall k, a, b | 0 <= k < |components| && a in components[k].modules ::
           b in components[k].modules <==> b in AllModules(issues) && Connected(issues, a, b))
      && (forall m :: m in AllModules(issues) <==> m in Covered(components))
      && (forall k | 0 <= k < |components| :: components[k].modules != {} && components[k].severities != [])
  {
    var components, roots := Components(issues, root), Roots(issues, root);
    forall k, a, b | 0 <= k < |components| && a in components[k].modules
      ensures b in components[k].modules <==> b in AllModules(issues) && Connected(issues, a, b)
    {
      ComponentIsClass(issues, root, roots[k], a, b);
    }
    forall m
      ensures m in AllModules(issues) <==> m in Covered(components)
    {
      ModuleIsCovered(issues, root, m);
    }
    forall k | 0 <= k < |components|
      ensures components[k].modules != {} && components[k].severities != []
    {
      ComponentNotEmpty(issues, root, roots[k]);
    }
  }

  /** Module sets are disjoint and their sizes add up to the number of distinct modules. */
  lemma ComponentSizesAdd(issues: seq<Issue>, root: Links)
    requires AllNamed(issues) && RootsAreClasses(issues, root)
    ensures Disjoint(Components(issues, root))
    ensures SumSizes(Components(issues, root)) == |AllModules(issues)|
  {
    var components, roots := Components(issues, root), Roots(issues, root);
    RootsDistinct(issues, root);
    forall j, k, m | 0 <= j < k < |components| && m in components[j].modules && m in components[k].modules
      ensures false
    {
      ComponentModules(issues, root, roots[j], m);
      ComponentModules(issues, root, roots[k], m);
      assert false;
    }
    ComponentsAreClasses(issues, root);
    DisjointSizesAdd(components);
    assert Covered(components) == AllModules(issues);
  }

  ghost function Filed(issues: seq<Issue>, root: Links, roots: seq<Module>): nat
    requires AllNamed(issues)
  {
    if roots == [] then 0 else |Rooted(issues, root, roots[0])| + Filed(issues, root, roots[1..])
  }

  lemma {:induction false} FiledOnce(issues: seq<Issue>, issue: Issue, root: Links, roots: seq<Module>)
    requires AllNamed(issues) && issue.modules != []
    requires forall j, k | 0 <= j < k < |roots| :: roots[j] != roots[k]
    ensures AllNamed(issues + [issue])
    ensures Filed(issues + [issue], root, roots) ==
              Filed(issues, root, roots) + if RootIn(root, issue.modules[0]) in roots then 1 else 0
  {
    if roots != [] {
      FiledOnce(issues, issue, root, roots[1..]);
      assert (issues + [issue])[..|issues|] == issues;
    }
  }

  lemma {:induction false} AllFiled(issues: seq<Issue>, root: Links, roots: seq<Module>)
    requires AllNamed(issues)
    requires forall j, k | 0 <= j < k < |roots| :: roots[j] != roots[k]
    requires forall i | 0 <= i < |issues| :: RootIn(root, issues[i].modules[0]) in roots
    ensures Filed(issues, root, roots) == |issues|
  {
    if issues == [] {
      NoneFiled(root, roots);
    } else {
      var earlier, last := issues[..|issues| - 1], issues[|issues| - 1];
      AllFiled(earlier, root, roots);
      FiledOnce(earlier, last, root, roots);
      assert earlier + [last] == issues;
    }
  }

  lemma {:induction false} NoneFiled(root: Links, roots: seq<Module>)
    ensures Filed([], root, roots) == 0
  {
    if roots != [] {
      NoneFiled(root, roots[1..]);
    }
  }

  lemma {:induction false} CyclesAreFiled(issues: seq<Issue>, root: Links, roots: seq<Module>, components: seq<Component>)
    requires AllNamed(issues) && |components| == |roots|
    requires forall k | 0 <= k < |roots| :: components[k] == ComponentOf(issues, root, roots[k])
    ensures SumCycles(components) == Filed(issues, root, roots)
  {
    if roots != [] {
      CyclesAreFiled(issues, root, roots[1..], components[1..]);
    }
  }

  /** Every cycle is counted in exactly one component. */
  lemma ComponentCyclesAdd(issues: seq<Issue>, root: Links)
    requires AllNamed(issues)
    ensures SumCycles(Components(issues, root)) == |issues|
  {
    RootsDistinct(issues, root);
    CyclesAreFiled(issues, root, Roots(issues, root), Components(issues, root));
    AllFiled(issues, root, Roots(issues, root));
  }

  // ------------------------------------------------------------------ which cycles, in which order

  predicate Rising(places: seq<nat>) {
    forall i, j | 0 <= i < j < |places| :: places[i] < places[j]
  }

  /** The places, in order, of the cycles whose first module satisfies `mine`. */
  ghost predicate ArePlaces(issues: seq<Issue>, mine: Module -> bool, places: seq<nat>)
    requires AllNamed(issues)
  {
    && Rising(places)
    && (forall i | 0 <= i < |places| :: places[i] < |issues| && mine(issues[places[i]].modules[0]))
    && (forall p: nat | p < |issues| && mine(issues[p].modules[0]) :: p in places)
  }

  ghost predicate ReadAt(read: seq<Issue>, issues: seq<Issue>, places: seq<nat>) {
    |read| == |places| && forall i | 0 <= i < |places| :: places[i] < |issues| && read[i] == issues[places[i]]
  }

  ghost function WithRoot(root: Links, r: Module): Module -> bool {
    m => RootIn(root, m) == r
  }

  lemma PlacesExtend(issues: seq<Issue>, issue: Issue, mine: Module -> bool, places: seq<nat>)
    requires AllNamed(issues) && ArePlaces(issues, mine, places) && issue.modules != [] && AllNamed(issues + [issue])
    ensures ArePlaces(issues + [issue], mine, if mine(issue.modules[0]) then places + [|issues|] else places)
  {
    var more := if mine(issue.modules[0]) then places + [|issues|] else places;
    forall p: nat | p < |issues + [issue]| && mine((issues + [issue])[p].modules[0])
      ensures p in more
    {
      if p < |issues| {
        assert (issues + [issue])[p] == issues[p] && p in places;
      }
    }
  }

  lemma ReadExtends(read: seq<Issue>, issues: seq<Issue>, issue: Issue, places: seq<nat>)
    requires ReadAt(read, issues, places)
    ensures ReadAt(read, issues + [issue], places)
    ensures ReadAt(read + [issue], issues + [issue], places + [|issues|])
  {
  }

  lemma {:induction false} RootedPlaces(issues: seq<Issue>, root: Links, r: Module) returns (places: seq<nat>)
    requires AllNamed(issues)
    ensures ArePlaces(issues, WithRoot(root, r), places) && ReadAt(Rooted(issues, root, r), issues, places)
  {
    places := [];
    if issues != [] {
      var earlier, last := issues[..|issues| - 1], issues[|issues| - 1];
      places := RootedPlaces(earlier, root, r);
      assert issues == earlier + [last] && last in issues;
      PlacesExtend(earlier, last, WithRoot(root, r), places);
      ReadExtends(Rooted(earlier, root, r), earlier, last, places);
      RootedExtends(earlier, last, root, r);
      if RootIn(root, last.modules[0]) == r {
        places := places + [|earlier|];
      } else {
        assert Rooted(issues, root, r) == Rooted(earlier, root, r);
      }
    }
  }

  lemma FirstModule(issues: seq<Issue>, root: Links, r: Module, p: nat)
    requires AllNamed(issues) && RootsAreClasses(issues, root) && p < |issues|
    ensures issues[p].modules[0] in ComponentOf(issues, root, r).modules <==> RootIn(root, issues[p].modules[0]) == r
  {
    ComponentModules(issues, root, r, issues[p].modules[0]);
    assert issues[p].modules[0] in issues[p].modules;
  }

  /** A component lists the severities of exactly the cycles that start in one of its modules, in their
      order. */
  lemma SeveritiesOfItsCycles(issues: seq<Issue>, root: Links, k: nat) returns (places: seq<nat>)
    requires AllNamed(issues) && RootsAreClasses(issues, root) && k < |Components(issues, root)|
    ensures var component := Components(issues, root)[k];
      && Rising(places) && |component.severities| == |places|
      && (forall i | 0 <= i < |places| ::
            && places[i] < |issues| && component.severities[i] == issues[places[i]].severity
            && issues[places[i]].modules[0] in component.modules)
      && (forall p: nat | p < |issues| && issues[p].modules[0] in component.modules :: p in places)
  {
    var r := Roots(issues, root)[k];
    places := RootedPlaces(issues, root, r);
    forall p: nat | p < |issues|
      ensures issues[p].modules[0] in ComponentOf(issues, root, r).modules <==> WithRoot(root, r)(issues[p].modules[0])
    {
      FirstModule(issues, root, r, p);
    }
  }

  lemma {:induction false} RootAppears(issues: seq<Issue>, root: Links, r: Module)
    requires AllNamed(issues)
    ensures r in Roots(issues, root) <==> exists p: nat :: p < |issues| && RootIn(root, issues[p].modules[0]) == r
  {
    if issues != [] {
      var earlier, last := issues[..|issues| - 1], issues[|issues| - 1];
      RootAppears(earlier, root, r);
      if p: nat :| p < |issues| && RootIn(root, issues[p].modules[0]) == r && p < |earlier| {
        assert earlier[p] == issues[p];
      }
    }
  }

  /** `p` is the place of a cycle of root `a`, before all those of root `b`. */
  ghost predicate Leads(issues: seq<Issue>, root: Links, a: Module, b: Module, p: nat)
    requires AllNamed(issues)
  {
    && p < |issues| && RootIn(root, issues[p].modules[0]) == a
    && forall q | 0 <= q < |issues| && RootIn(root, issues[q].modules[0]) == b :: p < q
  }

  lemma {:induction false} RootsInOrder(issues: seq<Issue>, root: Links, j: nat, k: nat) returns (p: nat)
    requires AllNamed(issues) && j < k < |Roots(issues, root)|
    ensures Leads(issues, root, Roots(issues, root)[j], Roots(issues, root)[k], p)
  {
    var earlier, last := issues[..|issues| - 1], issues[|issues| - 1];
    var a, b := Roots(issues, root)[j], Roots(issues, root)[k];
    if k < |Roots(earlier, root)| {
      p := RootsInOrder(earlier, root, j, k);
      assert Leads(earlier, root, a, b, p);
    } else {
      RootAppears(earlier, root, a);
      RootAppears(earlier, root, b);
      assert a in Roots(earlier, root) && b !in Roots(earlier, root);
      p :| p < |earlier| && RootIn(root, earlier[p].modules[0]) == a;
      assert forall q | 0 <= q < |earlier| :: RootIn(root, earlier[q].modules[0]) != b;
    }
    assert forall q | 0 <= q < |earlier| :: earlier[q] == issues[q];
  }

  /** Components are in the order in which their first cycles are reported. */
  lemma ComponentsFollowCycles(issues: seq<Issue>, root: Links, j: nat, k: nat) returns (p: nat)
    requires AllNamed(issues) && RootsAreClasses(issues, root) && j < k < |Components(issues, root)|
    ensures var components := Components(issues, root);
      && p < |issues| && issues[p].modules[0] in components[j].modules
      && forall q | 0 <= q < |issues| && issues[q].modules[0] in components[k].modules :: p < q
  {
    var a, b := Roots(issues, root)[j], Roots(issues, root)[k];
    p := RootsInOrder(issues, root, j, k);
    FirstModule(issues, root, a, p);
    forall q | 0 <= q < |issues| && issues[q].modules[0] in Components(issues, root)[k].modules
      ensures p < q
    {
      FirstModule(issues, root, b, q);
    }
  }

  // ------------------------------------------------------------------ strongly connected components

  /** The import edges the reported cycles stand for: each module to the next, the last to the first. */
  ghost function CycleEdge(issues: seq<Issue>): (Module, Module) -> bool {
    (a, b) => exists i, j :: 0 <= i < |issues| && 0 <= j < |issues[i].modules| && IsNext(issues[i].modules, j, a, b)
  }

  ghost predicate IsNext(modules: seq<Module>, j: int, a: Module, b: Module)
    requires 0 <= j < |modules|
  {
    modules[j] == a && b == modules[if j + 1 < |modules| then j + 1 else 0]
  }

  lemma {:induction false} AlongCycle(issues: seq<Issue>, i: nat, j: nat, k: nat)
    requires i < |issues| && j <= k < |issues[i].modules|
    ensures Reach(CycleEdge(issues), issues[i].modules[j], issues[i].modules[k])
    decreases k - j
  {
    var edge, modules := CycleEdge(issues), issues[i].modules;
    if j == k {
      ReachSelf(edge, modules[j]);
    } else {
      assert IsNext(modules, j, modules[j], modules[j + 1]);
      ReachStep(edge, modules[j], modules[j + 1]);
      AlongCycle(issues, i, j + 1, k);
      ReachTrans(edge, modules[j], modules[j + 1], modules[k]);
    }
  }

  lemma RoundCycle(issues: seq<Issue>, i: nat, j: nat, k: nat)
    requires i < |issues| && j < |issues[i].modules| && k < |issues[i].modules|
    ensures Reach(CycleEdge(issues), issues[i].modules[j], issues[i].modules[k])
  {
    var edge, modules := CycleEdge(issues), issues[i].modules;
    var last := |modules| - 1;
    AlongCycle(issues, i, j, last);
    assert IsNext(modules, last, modules[last], modules[0]);
    ReachStep(edge, modules[last], modules[0]);
    AlongCycle(issues, i, 0, k);
    ReachTrans(edge, modules[j], modules[last], modules[0]);
    ReachTrans(edge, modules[j], modules[0], modules[k]);
  }

  /** Chains of shared modules and mutual reachability along the cycle edges are the same relation. */
  lemma ConnectedIsStronglyConnected(issues: seq<Issue>, a: Module, b: Module)
    ensures Connected(issues, a, b) <==> Reach(CycleEdge(issues), a, b) && Reach(CycleEdge(issues), b, a)
  {
    if Connected(issues, a, b) {
      forall x, y | Meet(issues)(x, y)
        ensures Reach(CycleEdge(issues), x, y)
      {
        var i :| 0 <= i < |issues| && x in issues[i].modules && y in issues[i].modules;
        var j :| 0 <= j < |issues[i].modules| && issues[i].modules[j] == x;
        var k :| 0 <= k < |issues[i].modules| && issues[i].modules[k] == y;
        RoundCycle(issues, i, j, k);
      }
      ReachLifts(Meet(issues), CycleEdge(issues), a, b);
      ConnectedIsEquivalence(issues, a, b, a);
      ReachLifts(Meet(issues), CycleEdge(issues), b, a);
    }
    if Reach(CycleEdge(issues), a, b) {
      forall x, y | CycleEdge(issues)(x, y)
        ensures Connected(issues, x, y)
      {
        var i, j :| 0 <= i < |issues| && 0 <= j < |issues[i].modules| && IsNext(issues[i].modules, j, x, y);
        MeetConnects(issues, i, x, y);
      }
      ReachLifts(CycleEdge(issues), Meet(issues), a, b);
    }
  }

  /** The components are exactly the strongly connected components of the cycle-edge graph. */
  lemma ComponentsAreStronglyConnected(issues: seq<Issue>, root: Links)
    requires AllNamed(issues) && RootsAreClasses(issues, root)
    ensures var components, edge := Components(issues, root), CycleEdge(issues);
      forall k, a, b | 0 <= k < |components| && a in components[k].modules && b in AllModules(issues) ::
        b in components[k].modules <==> Reach(edge, a, b) && Reach(edge, b, a)
  {
    var components, edge := Components(issues, root), CycleEdge(issues);
    forall k, a, b | 0 <= k < |components| && a in components[k].modules && b in AllModules(issues)
      ensures b in components[k].modules <==> Reach(edge, a, b) && Reach(edge, b, a)
    {
      ComponentsAreClasses(issues, root);
      ConnectedIsStronglyConnected(issues, a, b);
    }
  }

  /** Components by the classes of connected modules, whatever their roots are. */
  ghost predicate AreComponents(issues: seq<Issue>, components: seq<Component>)
    requires AllNamed(issues)
  {
    exists root :: RootsAreClasses(issues, root) && components == Components(issues, root)
  }

  /** The whole computation, from the list of cycles to the list of components: None where a cycle
      lists no modules, and otherwise the strongly connected components, with sizes and cycles that
      add up. */
  method BuildComponents(issues: seq<Issue>) returns (built: Option<seq<Component>>)
    ensures built.Some? <==> AllNamed(issues)
    ensures built.Some? ==>
      && AreComponents(issues, built.value)
      && Disjoint(built.value) && SumSizes(built.value) == |AllModules(issues)| && SumCycles(built.value) == |issues|
  {
    var forest := new Forest();
    UniteIssues(forest, issues);
    ghost var root := forest.root;
    forall a, b
      ensures RootIn(root, a) == RootIn(root, b) <==> Connected(issues, a, b)
    {
      assert forest.RootOf(a) == RootIn(root, a) && forest.RootOf(b) == RootIn(root, b);
    }
    built := GroupIssues(forest, issues);
    if built.Some? {
      ComponentSizesAdd(issues, root);
      ComponentCyclesAdd(issues, root);
    }
  }
}
