/** Syntax trees as the error-handling rules walk them: a node is named by the child positions that
    lead to it from the root, so `node.parent` drops the last one. */
module SyntaxTrees {
  import opened Collections
  import opened Wrappers

  datatype Kind =
    | Call | Member | New | TryStatement | ExceptClause | CatchClause | ExpressionStatement | AwaitExpression
    | Parenthesized | Block | Function | Lambda | Class | RaiseStatement | Identifier | PassStatement | Ellipsis
    | Comment | Async | OtherKind

  datatype Field = FunctionField | ObjectField | PropertyField | BodyField | ArgumentsField | OtherField | NoField

  /** What an except clause names: a broad type, an expected one, or another. */
  datatype Caught = BroadType | ExpectedType | OtherType

  /** `io` and `logs` stand for the tests by name on calls and `new` expressions; `caught` and `alias`
      for the types and the name an except clause binds; `rows` for the rows a node spans. */
  datatype Tree = Tree(kind: Kind, field: Field, named: bool, text: string, io: bool, logs: bool,
                       caught: seq<Caught>, alias: string, rows: nat, children: seq<Tree>)

  type Node = seq<nat>

  function Parent(n: Node): (p: Node)
    requires n != []
    ensures |p| == |n| - 1
  {
    n[..|n| - 1]
  }

  /** The subtree at the node, if the positions lead to one. */
  function Get(root: Tree, n: Node): Option<Tree>
    decreases |n|
  {
    if n == [] then Some(root) else
      match Get(root, Parent(n))
      case None => None
      case Some(t) => if n[|n| - 1] < |t.children| then Some(t.children[n[|n| - 1]]) else None
  }

  predicate Valid(root: Tree, n: Node) {
    Get(root, n).Some?
  }

  function At(root: Tree, n: Node): Tree
    requires Valid(root, n)
  {
    Get(root, n).value
  }

  lemma ChildAt(root: Tree, n: Node, i: nat)
    requires Valid(root, n) && i < |At(root, n).children|
    ensures Parent(n + [i]) == n && Valid(root, n + [i]) && At(root, n + [i]) == At(root, n).children[i]
    ensures At(root, n + [i]) < At(root, n)
  {
    assert Parent(n + [i]) == n;
    assert (n + [i])[|n|] == i;
  }

  lemma {:induction false} PrefixValid(root: Tree, n: Node, k: nat)
    requires Valid(root, n) && k <= |n|
    ensures Valid(root, n[..k])
  {
    if k < |n| {
      PrefixValid(root, Parent(n), k);
      assert Parent(n)[..k] == n[..k];
    } else {
      assert n[..k] == n;
    }
  }

  function FirstWith(children: seq<Tree>, field: Field, from: nat): (r: Option<nat>)
    requires from <= |children|
    ensures r.Some? ==> from <= r.value < |children| && children[r.value].field == field
    decreases |children| - from
  {
    if from == |children| then None
    else if children[from].field == field then Some(from)
    else FirstWith(children, field, from + 1)
  }

  /** `node.child_by_field_name(field)` */
  function ChildBy(root: Tree, n: Node, field: Field): (r: Option<Node>)
    requires Valid(root, n)
    ensures r.Some? ==> r.value != [] && Parent(r.value) == n && Valid(root, r.value)
    ensures r.Some? ==> At(root, r.value) < At(root, n) && |r.value| == |n| + 1
  {
    match FirstWith(At(root, n).children, field, 0)
    case None => None
    case Some(i) => ChildAt(root, n, i); Some(n + [i])
  }

  lemma {:induction false} FirstWithMeans(children: seq<Tree>, field: Field, from: nat, i: nat)
    requires from <= i < |children|
    ensures FirstWith(children, field, from) == Some(i) <==>
              children[i].field == field && forall j | from <= j < i :: children[j].field != field
    decreases |children| - from
  {
    if children[from].field != field && from < i {
      FirstWithMeans(children, field, from + 1, i);
    }
  }

  /** `c` is the first child of `n` in the field. */
  predicate IsField(root: Tree, n: Node, field: Field, c: Node) {
    && Valid(root, n) && |c| == |n| + 1 && c[..|n|] == n
    && var children, i := At(root, n).children, c[|n|];
       i < |children| && children[i].field == field && forall j | 0 <= j < i :: children[j].field != field
  }

  lemma ChildByMeans(root: Tree, n: Node, field: Field, c: Node)
    requires Valid(root, n)
    ensures ChildBy(root, n, field) == Some(c) <==> IsField(root, n, field, c)
  {
    var children := At(root, n).children;
    if |c| == |n| + 1 && c[..|n|] == n && c[|n|] < |children| {
      FirstWithMeans(children, field, 0, c[|n|]);
      assert c == n + [c[|n|]];
      if ChildBy(root, n, field).Some? {
        var i := FirstWith(children, field, 0).value;
        assert n + [i] == c <==> i == c[|n|] by {
          assert (n + [i])[|n|] == i;
        }
      }
    } else if ChildBy(root, n, field).Some? {
      var i := FirstWith(children, field, 0).value;
      assert (n + [i])[..|n|] == n && (n + [i])[|n|] == i;
    }
  }

  /** The named children, from the given position on. */
  function NamedFrom(root: Tree, n: Node, from: nat): (r: seq<Node>)
    requires Valid(root, n) && from <= |At(root, n).children|
    ensures forall i | 0 <= i < |r| :: Valid(root, r[i]) && At(root, r[i]) < At(root, n)
    decreases |At(root, n).children| - from
  {
    if from == |At(root, n).children| then [] else
      ChildAt(root, n, from);
      (if At(root, n).children[from].named then [n + [from]] else []) + NamedFrom(root, n, from + 1)
  }

  function NamedChildren(root: Tree, n: Node): (r: seq<Node>)
    requires Valid(root, n)
    ensures forall i | 0 <= i < |r| :: Valid(root, r[i]) && At(root, r[i]) < At(root, n)
  {
    NamedFrom(root, n, 0)
  }

  /** `c` is a named child of `n`. */
  predicate IsNamed(root: Tree, n: Node, c: Node) {
    && Valid(root, n) && |c| == |n| + 1 && c[..|n|] == n
    && c[|n|] < |At(root, n).children| && At(root, n).children[c[|n|]].named
  }

  /** `c` is the first named child of `n`. */
  predicate IsFirstNamed(root: Tree, n: Node, c: Node) {
    IsFirstFrom(root, n, 0, c)
  }

  predicate IsFirstFrom(root: Tree, n: Node, from: nat, c: Node) {
    IsNamed(root, n, c) && c[|n|] >= from && forall j | from <= j < c[|n|] :: !At(root, n).children[j].named
  }

  lemma NamedStep(root: Tree, n: Node, from: nat)
    requires Valid(root, n) && from < |At(root, n).children|
    ensures Valid(root, n + [from]) && At(root, n + [from]) == At(root, n).children[from]
    ensures NamedFrom(root, n, from) ==
              if At(root, n).children[from].named then [n + [from]] + NamedFrom(root, n, from + 1) else NamedFrom(root, n, from + 1)
  {
    ChildAt(root, n, from);
  }

  lemma SamePlace(n: Node, i: nat, c: Node)
    ensures c == n + [i] <==> |c| == |n| + 1 && c[..|n|] == n && c[|n|] == i
  {
    assert (n + [i])[..|n|] == n && (n + [i])[|n|] == i;
  }

  lemma {:induction false} NamedFromMeans(root: Tree, n: Node, from: nat, c: Node)
    requires Valid(root, n) && from <= |At(root, n).children|
    ensures c in NamedFrom(root, n, from) <==> IsNamed(root, n, c) && c[|n|] >= from
    decreases |At(root, n).children| - from
  {
    if from < |At(root, n).children| {
      NamedFromMeans(root, n, from + 1, c);
      NamedStep(root, n, from);
      SamePlace(n, from, c);
    }
  }

  lemma FirstStep(root: Tree, n: Node, from: nat, c: Node)
    requires Valid(root, n) && from < |At(root, n).children|
    ensures IsFirstFrom(root, n, from, c) <==>
              if At(root, n).children[from].named then c == n + [from] else IsFirstFrom(root, n, from + 1, c)
  {
    SamePlace(n, from, c);
  }

  lemma {:induction false} FirstFromMeans(root: Tree, n: Node, from: nat, c: Node)
    requires Valid(root, n) && from <= |At(root, n).children|
    ensures NamedFrom(root, n, from) != [] && NamedFrom(root, n, from)[0] == c <==> IsFirstFrom(root, n, from, c)
    decreases |At(root, n).children| - from
  {
    if from < |At(root, n).children| {
      FirstFromMeans(root, n, from + 1, c);
      NamedStep(root, n, from);
      FirstStep(root, n, from, c);
    }
  }

  lemma FirstNamedMeans(root: Tree, n: Node, c: Node)
    requires Valid(root, n)
    ensures FirstNamed(root, n) == Some(c) <==> IsFirstNamed(root, n, c)
  {
    FirstFromMeans(root, n, 0, c);
  }

  function FirstNamed(root: Tree, n: Node): (r: Option<Node>)
    requires Valid(root, n)
    ensures r.Some? ==> Valid(root, r.value) && At(root, r.value) < At(root, n)
  {
    if NamedChildren(root, n) == [] then None else Some(NamedChildren(root, n)[0])
  }

  // ------------------------------------------------------------------ walking down with a stack

  /** Where a walk does not go on: `_walk` always does, `_own_nodes` stops at definitions. */
  predicate Stops(own: bool, t: Tree) {
    own && (t.kind == Function || t.kind == Class || t.kind == Lambda)
  }

  /** The nodes of a walk from `n`, in order. */
  function Visited(root: Tree, n: Node, own: bool): seq<Node>
    requires Valid(root, n)
    decreases At(root, n), 1, 0
  {
    [n] + if Stops(own, At(root, n)) then [] else VisitedBelow(root, n, 0, own)
  }

  /** The nodes of the walks from the children of `n` from position `from` on. */
  function VisitedBelow(root: Tree, n: Node, from: nat, own: bool): seq<Node>
    requires Valid(root, n) && from <= |At(root, n).children|
    decreases At(root, n), 0, |At(root, n).children| - from
  {
    if from == |At(root, n).children| then [] else
      ChildAt(root, n, from);
      Visited(root, n + [from], own) + VisitedBelow(root, n, from + 1, own)
  }

  predicate AllValid(root: Tree, nodes: seq<Node>) {
    forall i | 0 <= i < |nodes| :: Valid(root, nodes[i])
  }

  /** The nodes of the walks from all nodes of a stack, the top first. */
  function VisitedAll(root: Tree, stack: seq<Node>, own: bool): seq<Node>
    requires AllValid(root, stack)
  {
    if stack == [] then [] else
      Visited(root, stack[|stack| - 1], own) + VisitedAll(root, stack[..|stack| - 1], own)
  }

  /** `reversed(node.children)`, up to position `from` */
  function Reversed(root: Tree, n: Node, from: nat): (r: seq<Node>)
    requires Valid(root, n) && from <= |At(root, n).children|
    ensures AllValid(root, r)
    decreases |At(root, n).children| - from
  {
    if from == |At(root, n).children| then [] else
      ChildAt(root, n, from);
      Reversed(root, n, from + 1) + [n + [from]]
  }

  lemma PushOne(root: Tree, stack: seq<Node>, n: Node, own: bool)
    requires Valid(root, n) && AllValid(root, stack)
    ensures AllValid(root, stack + [n])
    ensures VisitedAll(root, stack + [n], own) == Visited(root, n, own) + VisitedAll(root, stack, own)
  {
    assert (stack + [n])[..|stack|] == stack;
  }

  lemma {:induction false} PushChildren(root: Tree, stack: seq<Node>, n: Node, from: nat, own: bool)
    requires Valid(root, n) && from <= |At(root, n).children| && AllValid(root, stack)
    ensures VisitedAll(root, stack + Reversed(root, n, from), own) ==
              VisitedBelow(root, n, from, own) + VisitedAll(root, stack, own)
    decreases |At(root, n).children| - from
  {
    if from == |At(root, n).children| {
      assert stack + Reversed(root, n, from) == stack;
    } else {
      ChildAt(root, n, from);
      PushChildren(root, stack, n, from + 1, own);
      var later := Reversed(root, n, from + 1);
      PushOne(root, stack + later, n + [from], own);
      Associates(stack, later, [n + [from]]);
      Associates(Visited(root, n + [from], own), VisitedBelow(root, n, from + 1, own), VisitedAll(root, stack, own));
    }
  }

  /** The stack after its top was taken and, unless the walk stops there, its children put on it. */
  function Pushed(root: Tree, stack: seq<Node>, own: bool): (r: seq<Node>)
    requires stack != [] && AllValid(root, stack)
    ensures AllValid(root, r)
  {
    var current, rest := stack[|stack| - 1], stack[..|stack| - 1];
    if Stops(own, At(root, current)) then rest else rest + Reversed(root, current, 0)
  }

  lemma WalkStep(root: Tree, stack: seq<Node>, own: bool)
    requires stack != [] && AllValid(root, stack)
    ensures VisitedAll(root, stack, own) == [stack[|stack| - 1]] + VisitedAll(root, Pushed(root, stack, own), own)
  {
    var current, rest := stack[|stack| - 1], stack[..|stack| - 1];
    PushChildren(root, rest, current, 0, own);
  }

  lemma StackOfOne(root: Tree, n: Node, own: bool)
    requires Valid(root, n)
    ensures VisitedAll(root, [n], own) == Visited(root, n, own)
  {
    assert [n][..0] == [];
    assert VisitedAll(root, [], own) == [];
  }

  /** `list(_walk(root))` */
  method Walk(root: Tree) returns (nodes: seq<Node>)
    ensures nodes == Visited(root, [], false)
  {
    nodes := [];
    var stack: seq<Node> := [[]];
    StackOfOne(root, [], false);
    while stack != []
      invariant AllValid(root, stack)
      invariant nodes + VisitedAll(root, stack, false) == Visited(root, [], false)
      decreases |VisitedAll(root, stack, false)|
    {
      WalkStep(root, stack, false);
      var current := stack[|stack| - 1];
      nodes := nodes + [current];
      stack := stack[..|stack| - 1] + Reversed(root, current, 0);
    }
  }

  // ------------------------------------------------------------------ what a walk visits

  /** `n` is `top` or below it, and no node from `top` down to the parent of `n` stops the walk. */
  ghost predicate IsVisited(root: Tree, top: Node, n: Node, own: bool) {
    && Valid(root, n) && |top| <= |n| && n[..|top|] == top
    && forall k | |top| <= k < |n| :: Valid(root, n[..k]) && !Stops(own, At(root, n[..k]))
  }

  ghost predicate VisitedChild(root: Tree, top: Node, i: nat, n: Node, own: bool)
    requires Valid(root, top)
  {
    i < |At(root, top).children| && IsVisited(root, top + [i], n, own)
  }

  lemma VisitedDown(root: Tree, top: Node, n: Node, own: bool)
    requires Valid(root, top) && IsVisited(root, top, n, own) && n != top
    ensures !Stops(own, At(root, top)) && VisitedChild(root, top, n[|top|], n, own)
  {
    assert n[..|n|] == n;
    PrefixValid(root, n, |top| + 1);
    assert n[..|top| + 1] == top + [n[|top|]];
    assert Parent(top + [n[|top|]]) == top;
  }

  lemma VisitedUp(root: Tree, top: Node, i: nat, n: Node, own: bool)
    requires Valid(root, top) && VisitedChild(root, top, i, n, own) && !Stops(own, At(root, top))
    ensures IsVisited(root, top, n, own)
  {
    assert n[..|top|] == n[..|top| + 1][..|top|] == top;
  }

  lemma VisitedStep(root: Tree, top: Node, n: Node, own: bool)
    requires Valid(root, top)
    ensures IsVisited(root, top, n, own) <==>
              n == top || (!Stops(own, At(root, top)) && exists i: nat :: VisitedChild(root, top, i, n, own))
  {
    if IsVisited(root, top, n, own) && n != top {
      VisitedDown(root, top, n, own);
    }
    if n == top {
      assert n[..|top|] == top;
    } else if i: nat :| VisitedChild(root, top, i, n, own) {
      if !Stops(own, At(root, top)) {
        VisitedUp(root, top, i, n, own);
      }
    }
  }

  lemma {:induction false} VisitedMembers(root: Tree, top: Node, n: Node, own: bool)
    requires Valid(root, top)
    ensures n in Visited(root, top, own) <==> IsVisited(root, top, n, own)
    decreases At(root, top), 1, 0
  {
    VisitedStep(root, top, n, own);
    if !Stops(own, At(root, top)) {
      BelowMembers(root, top, 0, n, own);
    }
  }

  lemma {:induction false} BelowMembers(root: Tree, top: Node, from: nat, n: Node, own: bool)
    requires Valid(root, top) && from <= |At(root, top).children|
    ensures n in VisitedBelow(root, top, from, own) <==>
              exists i: nat :: from <= i && VisitedChild(root, top, i, n, own)
    decreases At(root, top), 0, |At(root, top).children| - from
  {
    if from < |At(root, top).children| {
      ChildAt(root, top, from);
      VisitedMembers(root, top + [from], n, own);
      BelowMembers(root, top, from + 1, n, own);
      assert VisitedChild(root, top, from, n, own) <==> IsVisited(root, top + [from], n, own);
    }
  }

  lemma DistinctAppend(a: seq<Node>, b: seq<Node>)
    requires Distinct(a) && Distinct(b) && forall n | n in a :: n !in b
    ensures Distinct(a + b)
  {
    var s := a + b;
    forall i, j | 0 <= i < j < |s| ensures s[i] != s[j] {
      if i < |a| <= j {
        assert s[i] in a && s[j] in b;
      }
    }
  }

  lemma {:induction false} VisitedOnce(root: Tree, top: Node, own: bool)
    requires Valid(root, top)
    ensures Distinct(Visited(root, top, own))
    decreases At(root, top), 1, 0
  {
    if !Stops(own, At(root, top)) {
      BelowOnce(root, top, 0, own);
      BelowMembers(root, top, 0, top, own);
      DistinctAppend([top], VisitedBelow(root, top, 0, own));
    }
  }

  lemma {:induction false} BelowOnce(root: Tree, top: Node, from: nat, own: bool)
    requires Valid(root, top) && from <= |At(root, top).children|
    ensures Distinct(VisitedBelow(root, top, from, own))
    decreases At(root, top), 0, |At(root, top).children| - from
  {
    if from < |At(root, top).children| {
      ChildAt(root, top, from);
      VisitedOnce(root, top + [from], own);
      BelowOnce(root, top, from + 1, own);
      var here, later := Visited(root, top + [from], own), VisitedBelow(root, top, from + 1, own);
      forall n | n in here ensures n !in later {
        VisitedMembers(root, top + [from], n, own);
        BelowMembers(root, top, from + 1, n, own);
        assert n[..|top| + 1] == top + [from];
        assert forall i: nat :: n[..|top| + 1] == top + [i] ==> (top + [i])[|top|] == (top + [from])[|top|];
      }
      DistinctAppend(here, later);
    }
  }

  /** `_walk` yields every node of the tree, and each once. */
  lemma WalkIsExact(root: Tree)
    ensures Distinct(Visited(root, [], false))
    ensures forall n :: n in Visited(root, [], false) <==> Valid(root, n)
  {
    VisitedOnce(root, [], false);
    forall n ensures n in Visited(root, [], false) <==> Valid(root, n) {
      VisitedMembers(root, [], n, false);
      if Valid(root, n) {
        forall k | 0 <= k < |n| ensures Valid(root, n[..k]) {
          PrefixValid(root, n, k);
        }
        assert n[..0] == [];
      }
    }
  }
}
