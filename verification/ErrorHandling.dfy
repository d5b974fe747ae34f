/** error_handling.py: promise chains, try bodies, and the counts behind the three ratios. */
module ErrorHandling {
  import Collections
  import Reals
  import opened SyntaxTrees
  import opened Wrappers

  datatype Rule =
    | BareExcept | SwallowedBroadExcept | ExceptionIgnored | BroadExceptLargeBlock
    | EmptyCatch | CatchOnlyLogs | UnhandledPromise | AwaitIoOutsideTry

  datatype Language = Python | JavaScript

  // ------------------------------------------------------------------ promise chains

  /** A method of a chain and its number of arguments. */
  datatype Link = Link(property: string, arguments: nat)

  function TextBy(root: Tree, n: Node, field: Field): string
    requires Valid(root, n)
  {
    match ChildBy(root, n, field) case None => "" case Some(c) => At(root, c).text
  }

  function ArgumentCount(root: Tree, call: Node): nat
    requires Valid(root, call)
  {
    match ChildBy(root, call, ArgumentsField)
    case None => 0
    case Some(list) => |Statements(root, list)|
  }

  /** The named children that are not comments. */
  function Statements(root: Tree, n: Node): (r: seq<Node>)
    requires Valid(root, n)
    ensures AllValid(root, r)
  {
    var named := NamedChildren(root, n);
    NotComments(root, named)
  }

  function NotComments(root: Tree, nodes: seq<Node>): (r: seq<Node>)
    requires AllValid(root, nodes)
    ensures AllValid(root, r)
  {
    if nodes == [] then [] else
      (if At(root, nodes[0]).kind == Comment then [] else [nodes[0]]) + NotComments(root, nodes[1..])
  }

  /** The member expression that is called by `call`, as in `member(...)`. */
  function CalledMember(root: Tree, call: Node): (r: Option<Node>)
    requires Valid(root, call)
    ensures r.Some? ==> ChildBy(root, call, FunctionField) == r && At(root, r.value).kind == Member
  {
    if At(root, call).kind != Call then None else
      match ChildBy(root, call, FunctionField)
      case None => None
      case Some(m) => if At(root, m).kind == Member then Some(m) else None
  }

  /** The link that a call on a member adds to the chain. */
  function LinkOf(root: Tree, member: Node, call: Node): Link
    requires Valid(root, member) && Valid(root, call)
  {
    Link(TextBy(root, member, PropertyField), ArgumentCount(root, call))
  }

  /** Whether `n` is chained onto: it is the object of a member that its grandparent calls. */
  predicate Chained(root: Tree, n: Node)
    requires Valid(root, n)
  {
    && |n| >= 2
    && PrefixesValid(root, n)
    && ChildBy(root, Parent(n), ObjectField) == Some(n)
    && CalledMember(root, Parent(Parent(n))) == Some(Parent(n))
  }

  predicate PrefixesValid(root: Tree, n: Node)
    requires |n| >= 2
  {
    Valid(root, Parent(n)) && Valid(root, Parent(Parent(n)))
  }

  lemma PrefixesAreValid(root: Tree, n: Node)
    requires Valid(root, n)
    ensures n != [] ==> Valid(root, Parent(n))
    ensures |n| >= 2 ==> PrefixesValid(root, n)
  {
  }

  /** The chain above `n`, from the nearest call to the outermost. */
  function Above(root: Tree, n: Node): seq<Link>
    requires Valid(root, n)
    decreases |n|
  {
    if Chained(root, n) then
      var outer := Parent(Parent(n));
      [LinkOf(root, Parent(n), outer)] + Above(root, outer)
    else []
  }

  /** The outermost call of the chain above `n`. */
  function Outermost(root: Tree, n: Node): (r: Node)
    requires Valid(root, n)
    ensures Valid(root, r)
    decreases |n|
  {
    if Chained(root, n) then Outermost(root, Parent(Parent(n))) else n
  }

  /** The chain that ends at `call`, from `call` down. */
  function Below(root: Tree, call: Node): seq<Link>
    requires Valid(root, call)
    decreases At(root, call)
  {
    match CalledMember(root, call)
    case None => []
    case Some(m) =>
      [LinkOf(root, m, call)] +
      match ChildBy(root, m, ObjectField)
      case None => []
      case Some(o) => Below(root, o)
  }

  function BelowFrom(root: Tree, o: Option<Node>): seq<Link>
    requires o.Some? ==> Valid(root, o.value)
  {
    match o case None => [] case Some(n) => Below(root, n)
  }

  /** `_chain_methods_above` */
  method ChainMethodsAbove(root: Tree, call: Node) returns (methods: seq<Link>)
    requires Valid(root, call)
    ensures methods == Above(root, call)
  {
    methods := [];
    var current := call;
    while true
      invariant Valid(root, current)
      invariant methods + Above(root, current) == Above(root, call)
      decreases |current|
    {
      PrefixesAreValid(root, current);
      if current == [] || At(root, Parent(current)).kind != Member {
        return;
      }
      var member := Parent(current);
      if ChildBy(root, member, ObjectField) != Some(current) {
        return;
      }
      if member == [] || At(root, Parent(member)).kind != Call {
        return;
      }
      var outer := Parent(member);
      if ChildBy(root, outer, FunctionField) != Some(member) {
        return;
      }
      assert Chained(root, current);
      methods := methods + [Link(TextBy(root, member, PropertyField), ArgumentCount(root, outer))];
      current := outer;
    }
  }

  lemma BelowStep(root: Tree, call: Node, member: Node, before: seq<Link>)
    requires Valid(root, call) && CalledMember(root, call) == Some(member)
    ensures var rest := BelowFrom(root, ChildBy(root, member, ObjectField));
      before + Below(root, call) == before + [LinkOf(root, member, call)] + rest
  {
    Collections.Associates(before, [LinkOf(root, member, call)], BelowFrom(root, ChildBy(root, member, ObjectField)));
  }

  /** `_chain_methods_below` */
  method ChainMethodsBelow(root: Tree, call: Node) returns (methods: seq<Link>)
    requires Valid(root, call)
    ensures methods == Below(root, call)
  {
    methods := [];
    var current := Some(call);
    while current.Some? && At(root, current.value).kind == Call
      invariant current.Some? ==> Valid(root, current.value)
      invariant methods + BelowFrom(root, current) == Below(root, call)
      decreases current.Some?, if current.Some? then At(root, current.value) else root
    {
      var function0 := ChildBy(root, current.value, FunctionField);
      if function0 == None || At(root, function0.value).kind != Member {
        break;
      }
      var link := Link(TextBy(root, function0.value, PropertyField), ArgumentCount(root, current.value));
      var object0 := ChildBy(root, function0.value, ObjectField);
      BelowStep(root, current.value, function0.value, methods);
      methods, current := methods + [link], object0;
    }
  }

  function Reverse<T>(s: seq<T>): seq<T> {
    if s == [] then [] else Reverse(s[1..]) + [s[0]]
  }

  /** Read downward from the outermost call, a chain is the chain read upward, reversed, followed by
      what is below the call it was read from. */
  lemma {:induction false} ChainDuality(root: Tree, call: Node)
    requires Valid(root, call)
    ensures Below(root, Outermost(root, call)) == Reverse(Above(root, call)) + Below(root, call)
    decreases |call|
  {
    if Chained(root, call) {
      var member, outer := Parent(call), Parent(Parent(call));
      ChainDuality(root, outer);
      var link := LinkOf(root, member, outer);
      assert Below(root, outer) == [link] + Below(root, call);
      ReverseCons(link, Above(root, outer), Below(root, call));
    }
  }

  lemma ReverseCons<T>(x: T, s: seq<T>, rest: seq<T>)
    ensures Reverse([x] + s) + rest == Reverse(s) + ([x] + rest)
  {
    assert ([x] + s)[1..] == s;
  }

  /** The innermost call of a chain adds its own method if it calls a member, and nothing else. */
  lemma InnermostCall(root: Tree, call: Node)
    requires Valid(root, call)
    requires var m := CalledMember(root, call);
      m.Some? ==> ChildBy(root, m.value, ObjectField).Some? ==>
        At(root, ChildBy(root, m.value, ObjectField).value).kind != Call
    ensures Below(root, Outermost(root, call)) ==
              Reverse(Above(root, call)) +
              match CalledMember(root, call) case None => [] case Some(m) => [LinkOf(root, m, call)]
  {
    ChainDuality(root, call);
  }

  predicate Rejects(l: Link) {
    l.property == "catch" || (l.property == "then" && l.arguments >= 2)
  }

  /** `_handles_rejection` */
  predicate HandlesRejection(methods: seq<Link>) {
    exists i :: 0 <= i < |methods| && Rejects(methods[i])
  }

  lemma HandlesAppend(a: seq<Link>, b: seq<Link>)
    ensures HandlesRejection(a + b) <==> HandlesRejection(a) || HandlesRejection(b)
  {
    if i :| 0 <= i < |a| && Rejects(a[i]) {
      assert Rejects((a + b)[i]);
    }
    if i :| 0 <= i < |b| && Rejects(b[i]) {
      assert Rejects((a + b)[|a| + i]);
    }
  }

  lemma {:induction false} HandlesReverse(s: seq<Link>)
    ensures HandlesRejection(Reverse(s)) <==> HandlesRejection(s)
  {
    if s != [] {
      HandlesReverse(s[1..]);
      HandlesAppend(Reverse(s[1..]), [s[0]]);
      HandlesAppend([s[0]], s[1..]);
      assert s == [s[0]] + s[1..];
      assert HandlesRejection([s[0]]) <==> Rejects([s[0]][0]);
    }
  }

  /** The two readings agree on whether a chain handles its rejection: the statement of the whole
      chain is reported exactly if neither the calls above `call` nor those from it down do. */
  lemma ReadingsAgree(root: Tree, call: Node)
    requires Valid(root, call)
    ensures HandlesRejection(Below(root, Outermost(root, call))) <==>
              HandlesRejection(Above(root, call)) || HandlesRejection(Below(root, call))
  {
    ChainDuality(root, call);
    HandlesAppend(Reverse(Above(root, call)), Below(root, call));
    HandlesReverse(Above(root, call));
  }

  // ------------------------------------------------------------------ try bodies

  predicate FunctionOf(language: Language, kind: Kind) {
    kind == Function || (language == Python && kind == Lambda)
  }

  predicate FunctionAt(language: Language, root: Tree, n: Node, j: nat)
    requires Valid(root, n) && j <= |n|
  {
    PrefixValid(root, n, j);
    FunctionOf(language, At(root, n[..j]).kind)
  }

  /** `n[..k]` is a try statement with `n[..k + 1]` as its body. */
  predicate BodyAt(root: Tree, n: Node, k: nat)
    requires Valid(root, n) && k < |n|
  {
    PrefixValid(root, n, k);
    At(root, n[..k]).kind == TryStatement && ChildBy(root, n[..k], BodyField) == Some(n[..k + 1])
  }

  /** `n` is in the body of the try statement `n[..k]`, with no function between the two. */
  ghost predicate TriedAt(language: Language, root: Tree, n: Node, k: nat)
    requires Valid(root, n) && k < |n|
  {
    BodyAt(root, n, k) && forall j | k < j < |n| :: !FunctionAt(language, root, n, j)
  }

  ghost predicate InsideTry(language: Language, root: Tree, n: Node)
    requires Valid(root, n)
  {
    exists k :: 0 <= k < |n| && TriedAt(language, root, n, k)
  }

  /** What the climb from `child` finds. */
  predicate Inside(language: Language, root: Tree, child: Node)
    requires Valid(root, child)
    decreases |child|
  {
    child != [] &&
    (PrefixesAreValid(root, child);
     !FunctionOf(language, At(root, Parent(child)).kind) && (BodyOfTry(root, child) || Inside(language, root, Parent(child))))
  }

  predicate BodyOfTry(root: Tree, child: Node)
    requires Valid(root, child) && child != []
  {
    PrefixesAreValid(root, child);
    At(root, Parent(child)).kind == TryStatement && ChildBy(root, Parent(child), BodyField) == Some(child)
  }

  /** `_inside_try_body` */
  method InsideTryBody(language: Language, root: Tree, n: Node) returns (inside: bool)
    requires Valid(root, n)
    ensures inside == Inside(language, root, n)
  {
    var child := n;
    while child != []
      invariant Valid(root, child) && Inside(language, root, child) == Inside(language, root, n)
      decreases |child|
    {
      PrefixesAreValid(root, child);
      var parent := Parent(child);
      if FunctionOf(language, At(root, parent).kind) {
        return false;
      }
      if At(root, parent).kind == TryStatement && ChildBy(root, parent, BodyField) == Some(child) {
        return true;
      }
      child := parent;
    }
    inside := false;
  }

  lemma TriedFromParent(language: Language, root: Tree, n: Node, k: nat)
    requires Valid(root, n) && k + 1 < |n| && Valid(root, Parent(n))
    ensures TriedAt(language, root, n, k) <==>
              TriedAt(language, root, Parent(n), k) && !FunctionOf(language, At(root, Parent(n)).kind)
  {
    var p := Parent(n);
    assert forall j | 0 <= j <= |p| :: n[..j] == p[..j];
    assert n[..|p|] == p;
    assert BodyAt(root, n, k) <==> BodyAt(root, p, k);
    assert FunctionAt(language, root, n, |p|) <==> FunctionOf(language, At(root, p).kind);
    forall j | 0 <= j <= |p| ensures FunctionAt(language, root, n, j) <==> FunctionAt(language, root, p, j) {
      assert n[..j] == p[..j];
    }
    if TriedAt(language, root, p, k) && !FunctionOf(language, At(root, p).kind) {
      forall j | k < j < |n| ensures !FunctionAt(language, root, n, j) {
        assert j < |p| ==> !FunctionAt(language, root, p, j);
      }
    }
    if TriedAt(language, root, n, k) {
      forall j | k < j < |p| ensures !FunctionAt(language, root, p, j) {
        assert !FunctionAt(language, root, n, j);
      }
    }
  }

  lemma InsideTryStep(language: Language, root: Tree, n: Node)
    requires Valid(root, n) && n != [] && Valid(root, Parent(n))
    ensures InsideTry(language, root, n) <==>
              BodyOfTry(root, n)
              || (InsideTry(language, root, Parent(n)) && !FunctionOf(language, At(root, Parent(n)).kind))
  {
    var p, k := Parent(n), |n| - 1;
    assert n[..k] == p && n[..k + 1] == n;
    assert TriedAt(language, root, n, k) <==> BodyOfTry(root, n);
    forall i | 0 <= i < k
      ensures TriedAt(language, root, n, i) <==> TriedAt(language, root, p, i) && !FunctionOf(language, At(root, p).kind)
    {
      TriedFromParent(language, root, n, i);
    }
  }

  /** The climb finds a try body exactly if the node is lexically inside one, in the same function. */
  lemma {:induction false} InsideMeansInsideTry(language: Language, root: Tree, n: Node)
    requires Valid(root, n)
    ensures Inside(language, root, n) <==> InsideTry(language, root, n)
    decreases |n|
  {
    if n != [] {
      PrefixesAreValid(root, n);
      InsideMeansInsideTry(language, root, Parent(n));
      InsideTryStep(language, root, n);
    }
  }

  // ------------------------------------------------------------------ Python handlers

  /** `n` is below `body`, and no definition lies between the two. */
  ghost predicate IsOwn(root: Tree, body: Node, n: Node) {
    && Valid(root, n) && |body| < |n| && n[..|body|] == body
    && forall k | |body| < k < |n| :: Valid(root, n[..k]) && !Stops(true, At(root, n[..k]))
  }

  lemma OwnMembers(root: Tree, body: Node, n: Node)
    requires Valid(root, body)
    ensures n in VisitedBelow(root, body, 0, true) <==> IsOwn(root, body, n)
  {
    BelowMembers(root, body, 0, n, true);
    if IsOwn(root, body, n) {
      OwnHasChild(root, body, n);
    }
    if i: nat :| VisitedChild(root, body, i, n, true) {
      assert n[..|body|] == n[..|body| + 1][..|body|] == body;
    }
  }

  lemma OwnHasChild(root: Tree, body: Node, n: Node)
    requires Valid(root, body) && IsOwn(root, body, n)
    ensures VisitedChild(root, body, n[|body|], n, true)
  {
    assert n[..|n|] == n;
    PrefixValid(root, n, |body| + 1);
    assert n[..|body| + 1] == body + [n[|body|]];
    assert Parent(body + [n[|body|]]) == body;
  }

  /** Raising, logging, or using the caught exception. */
  predicate Surfaces(root: Tree, n: Node, alias: string) {
    match Get(root, n)
    case None => false
    case Some(t) =>
      || t.kind == RaiseStatement
      || (t.kind == Call && t.logs)
      || (alias != "" && t.kind == Identifier && t.text == alias)
  }

  predicate AnySurfaces(root: Tree, nodes: seq<Node>, alias: string) {
    exists i :: 0 <= i < |nodes| && Surfaces(root, nodes[i], alias)
  }

  lemma AnySurfacesCons(root: Tree, n: Node, nodes: seq<Node>, alias: string)
    ensures AnySurfaces(root, [n] + nodes, alias) <==> Surfaces(root, n, alias) || AnySurfaces(root, nodes, alias)
  {
    if Surfaces(root, n, alias) {
      assert Surfaces(root, ([n] + nodes)[0], alias);
    }
    if i :| 0 <= i < |nodes| && Surfaces(root, nodes[i], alias) {
      assert Surfaces(root, ([n] + nodes)[i + 1], alias);
    }
  }

  /** What the loop over `_own_nodes(body)` looks for. */
  predicate Handled(root: Tree, body: Node, alias: string)
    requires Valid(root, body)
  {
    AnySurfaces(root, VisitedBelow(root, body, 0, true), alias)
  }

  /** The loop over `_own_nodes(body)`, with its early exit. */
  method FindHandled(root: Tree, body: Node, alias: string) returns (handled: bool)
    requires Valid(root, body)
    ensures handled == Handled(root, body, alias)
  {
    var stack := Reversed(root, body, 0);
    OwnStack(root, body);
    while stack != []
      invariant AllValid(root, stack)
      invariant AnySurfaces(root, VisitedAll(root, stack, true), alias) == Handled(root, body, alias)
      decreases |VisitedAll(root, stack, true)|
    {
      WalkStep(root, stack, true);
      var current, next := stack[|stack| - 1], Pushed(root, stack, true);
      AnySurfacesCons(root, current, VisitedAll(root, next, true), alias);
      if Surfaces(root, current, alias) {
        return true;
      }
      stack := next;
    }
    handled := false;
  }

  lemma OwnStack(root: Tree, body: Node)
    requires Valid(root, body)
    ensures VisitedAll(root, Reversed(root, body, 0), true) == VisitedBelow(root, body, 0, true)
  {
    PushChildren(root, [], body, 0, true);
    assert [] + Reversed(root, body, 0) == Reversed(root, body, 0);
    assert VisitedAll(root, [], true) == [];
  }

  /** A handler counts as handling the error exactly if something in its own code, not in the code of
      a function or class defined there, surfaces it. */
  lemma HandledMeansOwnNode(root: Tree, body: Node, alias: string)
    requires Valid(root, body)
    ensures Handled(root, body, alias) <==> exists n :: IsOwn(root, body, n) && Surfaces(root, n, alias)
  {
    var nodes := VisitedBelow(root, body, 0, true);
    if i :| 0 <= i < |nodes| && Surfaces(root, nodes[i], alias) {
      OwnMembers(root, body, nodes[i]);
    }
    if n :| IsOwn(root, body, n) && Surfaces(root, n, alias) {
      OwnMembers(root, body, n);
    }
  }

  function FirstBlock(root: Tree, nodes: seq<Node>): (r: Option<Node>)
    requires AllValid(root, nodes)
    ensures r.Some? ==> Valid(root, r.value)
  {
    if nodes == [] then None
    else if At(root, nodes[0]).kind == Block then Some(nodes[0])
    else FirstBlock(root, nodes[1..])
  }

  /** The body of an except clause. */
  function ClauseBody(root: Tree, clause: Node): (r: Option<Node>)
    requires Valid(root, clause)
    ensures r.Some? ==> Valid(root, r.value)
  {
    FirstBlock(root, NamedChildren(root, clause))
  }

  predicate TrivialStatement(root: Tree, s: Node)
    requires Valid(root, s)
  {
    var named := NamedChildren(root, s);
    || At(root, s).kind == PassStatement
    || (At(root, s).kind == ExpressionStatement && |named| == 1 && At(root, named[0]).kind == Ellipsis)
  }

  predicate TrivialBody(root: Tree, body: Node)
    requires Valid(root, body)
  {
    forall i | 0 <= i < |Statements(root, body)| :: TrivialStatement(root, Statements(root, body)[i])
  }

  predicate Broad(caught: seq<Caught>) {
    caught == [] || BroadType in caught
  }

  predicate AllExpected(caught: seq<Caught>) {
    forall i | 0 <= i < |caught| :: caught[i] == ExpectedType
  }

  /** An except clause that discards the error. */
  predicate PythonSwallows(root: Tree, clause: Node)
    requires Valid(root, clause)
  {
    var t, body := At(root, clause), ClauseBody(root, clause);
    || t.caught == []
    || (body.Some? && Broad(t.caught) && TrivialBody(root, body.value))
    || (body.Some? && !AllExpected(t.caught) && !Handled(root, body.value, t.alias))
  }

  /** The first decision of `_python_handler`. */
  method PythonRule(root: Tree, clause: Node) returns (rule: Option<Rule>)
    requires Valid(root, clause)
    ensures rule.Some? <==> PythonSwallows(root, clause)
    ensures rule.Some? ==> rule.value in {BareExcept, SwallowedBroadExcept, ExceptionIgnored}
    ensures rule == Some(BareExcept) <==> At(root, clause).caught == []
    ensures rule == Some(SwallowedBroadExcept) <==>
              BroadType in At(root, clause).caught && ClauseBody(root, clause).Some?
              && TrivialBody(root, ClauseBody(root, clause).value)
  {
    var t, body := At(root, clause), ClauseBody(root, clause);
    rule := None;
    if t.caught == [] {
      rule := Some(BareExcept);
    } else if Broad(t.caught) && body.Some? && TrivialBody(root, body.value) {
      rule := Some(SwallowedBroadExcept);
    } else if body.Some? && !AllExpected(t.caught) {
      var handled := FindHandled(root, body.value, t.alias);
      if !handled {
        rule := Some(ExceptionIgnored);
      }
    }
  }

  /** A broad except clause of a try block of more than 25 rows. */
  predicate LargeTry(root: Tree, clause: Node)
    requires Valid(root, clause)
  {
    Broad(At(root, clause).caught) && clause != [] &&
    (PrefixesAreValid(root, clause);
     match ChildBy(root, Parent(clause), BodyField)
     case None => false
     case Some(body) => At(root, body).rows > 25)
  }

  // ------------------------------------------------------------------ JavaScript statements

  /** `_unwrap`, after any number of parentheses. */
  function Unwrapped(root: Tree, o: Option<Node>): (r: Option<Node>)
    requires o.Some? ==> Valid(root, o.value)
    ensures r.Some? ==> Valid(root, r.value)
    decreases o.Some?, if o.Some? then At(root, o.value) else root
  {
    if o.Some? && At(root, o.value).kind == Parenthesized then Unwrapped(root, FirstNamed(root, o.value)) else o
  }

  method Unwrap(root: Tree, o: Option<Node>) returns (r: Option<Node>)
    requires o.Some? ==> Valid(root, o.value)
    ensures r == Unwrapped(root, o)
  {
    r := o;
    while r.Some? && At(root, r.value).kind == Parenthesized
      invariant r.Some? ==> Valid(root, r.value)
      invariant Unwrapped(root, r) == Unwrapped(root, o)
      decreases r.Some?, if r.Some? then At(root, r.value) else root
    {
      r := FirstNamed(root, r.value);
    }
  }

  /** The call that a statement or an `await` consists of, parentheses aside. */
  function CallIn(root: Tree, n: Node): (r: Option<Node>)
    requires Valid(root, n)
    ensures r.Some? ==> Valid(root, r.value)
  {
    var inner := Unwrapped(root, FirstNamed(root, n));
    if inner.Some? && At(root, inner.value).kind == Call then inner else None
  }

  method FindCall(root: Tree, n: Node) returns (call: Option<Node>)
    requires Valid(root, n)
    ensures call == CallIn(root, n)
  {
    call := Unwrap(root, FirstNamed(root, n));
    if call.Some? && At(root, call.value).kind != Call {
      call := None;
    }
  }

  predicate ConsoleCall(root: Tree, s: Node)
    requires Valid(root, s)
  {
    At(root, s).kind == ExpressionStatement &&
    match CallIn(root, s)
    case None => false
    case Some(call) =>
      match CalledMember(root, call)
      case None => false
      case Some(m) => TextBy(root, m, ObjectField) == "console"
  }

  /** A catch clause that discards the error: it is empty, or only logs to the console. */
  predicate JsSwallows(root: Tree, clause: Node)
    requires Valid(root, clause)
  {
    match ChildBy(root, clause, BodyField)
    case None => false
    case Some(body) =>
      forall i | 0 <= i < |Statements(root, body)| :: ConsoleCall(root, Statements(root, body)[i])
  }

  /** `_chain_calls_below` */
  function CallsBelow(root: Tree, call: Node): (r: seq<Node>)
    requires Valid(root, call)
    ensures AllValid(root, r)
    decreases At(root, call)
  {
    if At(root, call).kind != Call then [] else
      [call] +
      match CalledMember(root, call)
      case None => []
      case Some(m) =>
        match ChildBy(root, m, ObjectField)
        case None => []
        case Some(o) => CallsBelow(root, o)
  }

  predicate AnyIo(root: Tree, nodes: seq<Node>)
    requires AllValid(root, nodes)
  {
    exists i :: 0 <= i < |nodes| && At(root, nodes[i]).io
  }

  /** `_enclosing_function`, the nearest one. */
  function Enclosing(root: Tree, n: Node): (r: Option<Node>)
    requires Valid(root, n)
    ensures r.Some? ==> Valid(root, r.value)
    decreases |n|
  {
    if n == [] then None else
      PrefixesAreValid(root, n);
      if FunctionOf(JavaScript, At(root, Parent(n)).kind) then Some(Parent(n)) else Enclosing(root, Parent(n))
  }

  predicate IsAsync(t: Tree) {
    exists i :: 0 <= i < |t.children| && !t.children[i].named && t.children[i].kind == Async
  }

  predicate HasThen(methods: seq<Link>) {
    exists i :: 0 <= i < |methods| && methods[i].property == "then"
  }

  /** An I/O call awaited in an async function. */
  predicate AwaitsIo(root: Tree, n: Node)
    requires Valid(root, n)
  {
    match CallIn(root, n)
    case None => false
    case Some(call) =>
      AnyIo(root, CallsBelow(root, call)) &&
      match Enclosing(root, n)
      case None => false
      case Some(f) => IsAsync(At(root, f))
  }

  /** The decision of `_js_handler`. */
  method JsRule(root: Tree, clause: Node) returns (rule: Option<Rule>)
    requires Valid(root, clause)
    ensures rule.Some? <==> JsSwallows(root, clause)
    ensures rule.Some? ==> rule.value in {EmptyCatch, CatchOnlyLogs}
    ensures var body := ChildBy(root, clause, BodyField);
      rule == Some(EmptyCatch) <==> body.Some? && Statements(root, body.value) == []
  {
    var body := ChildBy(root, clause, BodyField);
    if body == None {
      return None;
    }
    var statements := Statements(root, body.value);
    if statements == [] {
      return Some(EmptyCatch);
    }
    rule := if forall i | 0 <= i < |statements| :: ConsoleCall(root, statements[i]) then Some(CatchOnlyLogs) else None;
  }

  /** The early exits of `_js_await`: the awaited call, if it is a promise site. */
  method AwaitedIo(root: Tree, n: Node) returns (call: Option<Node>)
    requires Valid(root, n)
    ensures call == if AwaitsIo(root, n) then CallIn(root, n) else None
  {
    var argument := FindCall(root, n);
    if argument == None {
      return None;
    }
    if !AnyIo(root, CallsBelow(root, argument.value)) {
      return None;
    }
    var f := Enclosing(root, n);
    call := if f == None || !IsAsync(At(root, f.value)) then None else argument;
  }

  // ------------------------------------------------------------------ what is counted

  /** The counts of the collector; findings are counted by what they are about. */
  datatype Tally = Tally(handlers: nat, swallowed: nat, ioSites: nat, ioWrapped: nat, ioUnwrapped: nat,
                         promiseSites: nat, unhandled: nat)
  {
    function Plus(t: Tally): Tally {
      Tally(handlers + t.handlers, swallowed + t.swallowed, ioSites + t.ioSites, ioWrapped + t.ioWrapped,
            ioUnwrapped + t.ioUnwrapped, promiseSites + t.promiseSites, unhandled + t.unhandled)
    }
  }

  predicate Related(t: Tally) {
    t.swallowed <= t.handlers && t.ioWrapped + t.ioUnwrapped == t.ioSites && t.unhandled <= t.promiseSites
  }

  const NOTHING := Tally(0, 0, 0, 0, 0, 0, 0)

  function One(b: bool): nat {
    if b then 1 else 0
  }

  function HandlerTally(swallows: bool): Tally {
    Tally(1, One(swallows), 0, 0, 0, 0, 0)
  }

  function IoTally(wrapped: bool): Tally {
    Tally(0, 0, 1, One(wrapped), One(!wrapped), 0, 0)
  }

  function PromiseTally(handled: bool): Tally {
    Tally(0, 0, 0, 0, 0, 1, One(!handled))
  }

  function PythonTally(root: Tree, n: Node): Tally
    requires Valid(root, n)
  {
    var node := At(root, n);
    if node.kind == ExceptClause then HandlerTally(PythonSwallows(root, n))
    else if node.kind == Call && node.io then IoTally(Inside(Python, root, n))
    else NOTHING
  }

  function StatementTally(root: Tree, n: Node): Tally
    requires Valid(root, n)
  {
    match CallIn(root, n)
    case None => NOTHING
    case Some(call) =>
      if HasThen(Below(root, call)) then PromiseTally(HandlesRejection(Below(root, call))) else NOTHING
  }

  function AwaitTally(root: Tree, n: Node): Tally
    requires Valid(root, n)
  {
    if AwaitsIo(root, n) then
      PromiseTally(Inside(JavaScript, root, n) || HandlesRejection(Below(root, CallIn(root, n).value)))
    else NOTHING
  }

  function JsTally(root: Tree, n: Node): Tally
    requires Valid(root, n)
  {
    var node := At(root, n);
    if node.kind == CatchClause then HandlerTally(JsSwallows(root, n))
    else if node.kind == Call && node.io then IoTally(Inside(JavaScript, root, n) || HandlesRejection(Above(root, n)))
    else if node.kind == New && node.io then IoTally(Inside(JavaScript, root, n))
    else if node.kind == ExpressionStatement then StatementTally(root, n)
    else if node.kind == AwaitExpression then AwaitTally(root, n)
    else NOTHING
  }

  /** What one node adds to the counts. */
  function NodeTally(language: Language, root: Tree, n: Node): Tally
    requires Valid(root, n)
  {
    if language == Python then PythonTally(root, n) else JsTally(root, n)
  }

  function NodesTally(language: Language, root: Tree, nodes: seq<Node>): Tally
    requires AllValid(root, nodes)
  {
    if nodes == [] then NOTHING else
      NodesTally(language, root, nodes[..|nodes| - 1]).Plus(NodeTally(language, root, nodes[|nodes| - 1]))
  }

  lemma PlusAssociates(a: Tally, b: Tally, c: Tally)
    ensures a.Plus(b.Plus(c)) == a.Plus(b).Plus(c)
  {
  }

  lemma NodesTallyStep(language: Language, root: Tree, nodes: seq<Node>, i: nat)
    requires AllValid(root, nodes) && i < |nodes|
    ensures NodesTally(language, root, nodes[..i + 1]) ==
              NodesTally(language, root, nodes[..i]).Plus(NodeTally(language, root, nodes[i]))
  {
    assert nodes[..i + 1][..i] == nodes[..i];
  }

  datatype Source = Source(language: Language, root: Tree)

  lemma WalkValid(root: Tree)
    ensures AllValid(root, Visited(root, [], false))
  {
    WalkIsExact(root);
  }

  /** What all nodes of all trees add up to. */
  function TreesTally(trees: seq<Source>): Tally {
    if trees == [] then NOTHING else
      var last := trees[|trees| - 1];
      WalkValid(last.root);
      TreesTally(trees[..|trees| - 1]).Plus(NodesTally(last.language, last.root, Visited(last.root, [], false)))
  }

  // ------------------------------------------------------------------ counting them

  datatype Finding = Finding(rule: Rule, at: Node)

  predicate IsSwallowRule(r: Rule) {
    r in {BareExcept, SwallowedBroadExcept, EmptyCatch, ExceptionIgnored, CatchOnlyLogs}
  }

  predicate IsPromiseRule(r: Rule) {
    r in {UnhandledPromise, AwaitIoOutsideTry}
  }

  function SwallowCount(findings: seq<Finding>): nat {
    if findings == [] then 0 else
      SwallowCount(findings[..|findings| - 1]) + if IsSwallowRule(findings[|findings| - 1].rule) then 1 else 0
  }

  function PromiseCount(findings: seq<Finding>): nat {
    if findings == [] then 0 else
      PromiseCount(findings[..|findings| - 1]) + if IsPromiseRule(findings[|findings| - 1].rule) then 1 else 0
  }

  /** `Collected`, with the list of unwrapped sites that goes along with it. */
  class Collected {
    var findings: seq<Finding>
    var handlers: nat
    var ioSites: nat
    var ioWrapped: nat
    var promiseSites: nat
    var unwrapped: seq<Node>

    constructor ()
      ensures Tallied() == NOTHING
    {
      findings, handlers, ioSites, ioWrapped, promiseSites, unwrapped := [], 0, 0, 0, 0, [];
    }

    function Tallied(): Tally
      reads this
    {
      Tally(handlers, SwallowCount(findings), ioSites, ioWrapped, |unwrapped|, promiseSites, PromiseCount(findings))
    }

    method Add(rule: Rule, n: Node)
      modifies this`findings
      ensures findings == old(findings) + [Finding(rule, n)]
      ensures Tallied() == old(Tallied()).Plus(Tally(0, One(IsSwallowRule(rule)), 0, 0, 0, 0, One(IsPromiseRule(rule))))
    {
      findings := findings + [Finding(rule, n)];
      assert findings[..|findings| - 1] == old(findings);
    }

    /** `_python_handler` */
    method PythonHandler(root: Tree, clause: Node)
      requires Valid(root, clause)
      modifies this
      ensures Tallied() == old(Tallied()).Plus(HandlerTally(PythonSwallows(root, clause)))
      ensures |findings| == |old(findings)| + One(PythonSwallows(root, clause)) + One(LargeTry(root, clause))
      ensures LargeTry(root, clause) ==> findings[|findings| - 1] == Finding(BroadExceptLargeBlock, clause)
    {
      handlers := handlers + 1;
      var rule := PythonRule(root, clause);
      if rule.Some? {
        Add(rule.value, clause);
      }
      if LargeTry(root, clause) {
        Add(BroadExceptLargeBlock, clause);
      }
    }

    /** A node that is an I/O site. */
    method IoSite(n: Node, wrapped: bool)
      modifies this
      ensures Tallied() == old(Tallied()).Plus(IoTally(wrapped))
    {
      ioSites := ioSites + 1;
      if wrapped {
        ioWrapped := ioWrapped + 1;
      } else {
        unwrapped := unwrapped + [n];
      }
    }

    /** One turn of `_collect_python`. */
    method VisitPython(root: Tree, n: Node)
      requires Valid(root, n)
      modifies this
      ensures Tallied() == old(Tallied()).Plus(PythonTally(root, n))
    {
      var t := At(root, n);
      if t.kind == ExceptClause {
        PythonHandler(root, n);
      } else if t.kind == Call && t.io {
        var inside := InsideTryBody(Python, root, n);
        IoSite(n, inside);
      }
    }

    /** `_js_handler` */
    method JsHandler(root: Tree, clause: Node)
      requires Valid(root, clause)
      modifies this
      ensures Tallied() == old(Tallied()).Plus(HandlerTally(JsSwallows(root, clause)))
    {
      handlers := handlers + 1;
      var rule := JsRule(root, clause);
      if rule.Some? {
        Add(rule.value, clause);
      }
    }

    /** A promise site, reported unless it is handled. */
    method PromiseSite(n: Node, rule: Rule, handled: bool)
      requires rule == UnhandledPromise || rule == AwaitIoOutsideTry
      modifies this
      ensures Tallied() == old(Tallied()).Plus(PromiseTally(handled))
      ensures findings == old(findings) + if handled then [] else [Finding(rule, n)]
    {
      promiseSites := promiseSites + 1;
      if !handled {
        Add(rule, n);
      }
    }

    /** `_js_await` */
    method JsAwait(root: Tree, n: Node)
      requires Valid(root, n)
      modifies this
      ensures Tallied() == old(Tallied()).Plus(AwaitTally(root, n))
    {
      var argument := AwaitedIo(root, n);
      if argument == None {
        return;
      }
      var inside := InsideTryBody(JavaScript, root, n);
      var methods := ChainMethodsBelow(root, argument.value);
      PromiseSite(n, AwaitIoOutsideTry, inside || HandlesRejection(methods));
    }

    /** One turn of `_collect_js` at an expression statement. */
    method JsStatement(root: Tree, n: Node)
      requires Valid(root, n)
      modifies this
      ensures Tallied() == old(Tallied()).Plus(StatementTally(root, n))
    {
      var expression := FindCall(root, n);
      if expression == None {
        return;
      }
      var methods := ChainMethodsBelow(root, expression.value);
      if HasThen(methods) {
        PromiseSite(n, UnhandledPromise, HandlesRejection(methods));
      }
    }

    /** One turn of `_collect_js`. */
    method VisitJs(root: Tree, n: Node)
      requires Valid(root, n)
      modifies this
      ensures Tallied() == old(Tallied()).Plus(JsTally(root, n))
    {
      var t := At(root, n);
      if t.kind == CatchClause {
        JsHandler(root, n);
      } else if t.kind == Call && t.io {
        var inside := InsideTryBody(JavaScript, root, n);
        var methods := ChainMethodsAbove(root, n);
        IoSite(n, inside || HandlesRejection(methods));
      } else if t.kind == New && t.io {
        var inside := InsideTryBody(JavaScript, root, n);
        IoSite(n, inside);
      } else if t.kind == ExpressionStatement {
        JsStatement(root, n);
      } else if t.kind == AwaitExpression {
        JsAwait(root, n);
      }
    }

    method Visit(language: Language, root: Tree, n: Node)
      requires Valid(root, n)
      modifies this
      ensures Tallied() == old(Tallied()).Plus(NodeTally(language, root, n))
    {
      if language == Python {
        VisitPython(root, n);
      } else {
        VisitJs(root, n);
      }
    }

    method VisitNext(language: Language, root: Tree, nodes: seq<Node>, i: nat, ghost before: Tally)
      requires AllValid(root, nodes) && i < |nodes|
      requires Tallied() == before.Plus(NodesTally(language, root, nodes[..i]))
      modifies this
      ensures Tallied() == before.Plus(NodesTally(language, root, nodes[..i + 1]))
    {
      Visit(language, root, nodes[i]);
      PlusAssociates(before, NodesTally(language, root, nodes[..i]), NodeTally(language, root, nodes[i]));
      NodesTallyStep(language, root, nodes, i);
    }

    /** `_collect_python` or `_collect_js`: the walk counts every node of the tree. */
    method CollectTree(source: Source)
      modifies this
      ensures AllValid(source.root, Visited(source.root, [], false))
      ensures Tallied() ==
        old(Tallied()).Plus(NodesTally(source.language, source.root, Visited(source.root, [], false)))
    {
      var nodes := Walk(source.root);
      WalkValid(source.root);
      ghost var before := Tallied();
      for i := 0 to |nodes|
        invariant Tallied() == before.Plus(NodesTally(source.language, source.root, nodes[..i]))
      {
        VisitNext(source.language, source.root, nodes, i, before);
      }
      assert nodes[..|nodes|] == nodes;
    }
  }

  // ------------------------------------------------------------------ the report

  /** `score` is None if nothing could be measured. */
  datatype Report =
    | NotApplicable
    | Report(score: Option<real>, swallowRate: Option<real>, ioWrappedRatio: Option<real>, promiseHandling: Option<real>)

  function Share(part: nat, whole: nat): Option<real> {
    if whole == 0 then None else Some(part as real / whole as real)
  }

  function Rest(share: Option<real>): Option<real> {
    match share case None => None case Some(x) => Some(1.0 - x)
  }

  function Value(o: Option<real>): real {
    match o case None => 0.0 case Some(x) => x
  }

  /** `mean_score` */
  function Mean(a: Option<real>, b: Option<real>, c: Option<real>): Option<real> {
    var available := One(a.Some?) + One(b.Some?) + One(c.Some?);
    if available == 0 then None else Some((Value(a) + Value(b) + Value(c)) / available as real)
  }

  function ReportOf(t: Tally): Report {
    var swallowRate := Rest(Share(t.swallowed, t.handlers));
    var ioWrappedRatio := Share(t.ioWrapped, t.ioSites);
    var promiseHandling := Rest(Share(t.unhandled, t.promiseSites));
    Report(Mean(swallowRate, ioWrappedRatio, promiseHandling), swallowRate, ioWrappedRatio, promiseHandling)
  }

  /** `collect` over the parsed files, then `build_report`. */
  method Analyze(trees: seq<Source>) returns (report: Report)
    ensures report == if trees == [] then NotApplicable else ReportOf(TreesTally(trees))
  {
    var out := new Collected();
    for i := 0 to |trees|
      invariant out.Tallied() == TreesTally(trees[..i])
    {
      assert trees[..i + 1][..i] == trees[..i];
      out.CollectTree(trees[i]);
    }
    assert trees[..|trees|] == trees;
    report := if trees == [] then NotApplicable else ReportOf(out.Tallied());
  }

  lemma NodeRelated(language: Language, root: Tree, n: Node)
    requires Valid(root, n)
    ensures Related(NodeTally(language, root, n))
  {
  }

  lemma RelatedPlus(a: Tally, b: Tally)
    requires Related(a) && Related(b)
    ensures Related(a.Plus(b))
  {
  }

  lemma {:induction false} NodesRelated(language: Language, root: Tree, nodes: seq<Node>)
    requires AllValid(root, nodes)
    ensures Related(NodesTally(language, root, nodes))
  {
    if nodes != [] {
      NodesRelated(language, root, nodes[..|nodes| - 1]);
      NodeRelated(language, root, nodes[|nodes| - 1]);
      RelatedPlus(NodesTally(language, root, nodes[..|nodes| - 1]), NodeTally(language, root, nodes[|nodes| - 1]));
    }
  }

  /** Swallowed handlers are handlers, an I/O site is either wrapped or listed as unwrapped, and
      unhandled promises are promise sites. */
  lemma {:induction false} CountsRelated(trees: seq<Source>)
    ensures Related(TreesTally(trees))
  {
    if trees != [] {
      CountsRelated(trees[..|trees| - 1]);
      var last := trees[|trees| - 1];
      WalkValid(last.root);
      NodesRelated(last.language, last.root, Visited(last.root, [], false));
    }
  }

  predicate InUnit(o: Option<real>) {
    o.Some? ==> 0.0 <= o.value <= 1.0
  }

  lemma ShareInUnit(part: nat, whole: nat)
    requires part <= whole
    ensures InUnit(Share(part, whole)) && InUnit(Rest(Share(part, whole)))
    ensures whole > 0 ==> (Share(part, whole) == Some(1.0) <==> part == whole)
    ensures whole > 0 ==> (Rest(Share(part, whole)) == Some(1.0) <==> part == 0)
  {
    if whole > 0 {
      Reals.Share(part as real, whole as real);
    }
  }

  predicate OneOrNone(o: Option<real>) {
    o.Some? ==> o.value == 1.0
  }

  lemma MeanInUnit(a: Option<real>, b: Option<real>, c: Option<real>)
    requires InUnit(a) && InUnit(b) && InUnit(c)
    ensures InUnit(Mean(a, b, c))
    ensures Mean(a, b, c) == None || Mean(a, b, c) == Some(1.0) <==> OneOrNone(a) && OneOrNone(b) && OneOrNone(c)
  {
    var available := One(a.Some?) + One(b.Some?) + One(c.Some?);
    if available > 0 {
      Reals.Share(Value(a) + Value(b) + Value(c), available as real);
    }
  }

  /** Every ratio and the score lie in [0, 1], whatever the trees are. The score is 1, or there is
      nothing to score, exactly if nothing is swallowed, left unwrapped or left unhandled. */
  lemma ReportInRange(trees: seq<Source>)
    ensures var t, r := TreesTally(trees), ReportOf(TreesTally(trees));
      && InUnit(r.swallowRate) && InUnit(r.ioWrappedRatio) && InUnit(r.promiseHandling) && InUnit(r.score)
      && (r.score == None || r.score == Some(1.0) <==> t.swallowed == 0 && t.ioUnwrapped == 0 && t.unhandled == 0)
  {
    var t := TreesTally(trees);
    CountsRelated(trees);
    ShareInUnit(t.swallowed, t.handlers);
    ShareInUnit(t.ioWrapped, t.ioSites);
    ShareInUnit(t.unhandled, t.promiseSites);
    MeanInUnit(Rest(Share(t.swallowed, t.handlers)), Share(t.ioWrapped, t.ioSites), Rest(Share(t.unhandled, t.promiseSites)));
  }
}
