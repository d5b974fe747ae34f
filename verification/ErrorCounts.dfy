/** What the error-handling report counts, said of the syntax trees alone: each counter is the number of
    nodes of a kind that is described here without the collector's own helpers. */
module ErrorCounts {
  import opened Collections
  import opened ErrorHandling
  import opened SyntaxTrees
  import opened Wrappers

  // ------------------------------------------------------------------ statements and handlers

  /** A statement of a block: a named child that is not a comment. */
  predicate IsStatement(root: Tree, body: Node, s: Node) {
    IsNamed(root, body, s) && Valid(root, s) && At(root, s).kind != Comment
  }

  lemma NamedIsValid(root: Tree, n: Node, c: Node)
    requires IsNamed(root, n, c)
    ensures Valid(root, c) && Parent(c) == n && At(root, c) == At(root, n).children[c[|n|]]
  {
    ChildAt(root, n, c[|n|]);
    assert c == n + [c[|n|]];
  }

  lemma {:induction false} NotCommentsMeans(root: Tree, nodes: seq<Node>, s: Node)
    requires AllValid(root, nodes)
    ensures s in NotComments(root, nodes) <==> s in nodes && Valid(root, s) && At(root, s).kind != Comment
  {
    if nodes != [] {
      NotCommentsMeans(root, nodes[1..], s);
      assert nodes == [nodes[0]] + nodes[1..];
    }
  }

  lemma StatementsMean(root: Tree, body: Node, s: Node)
    requires Valid(root, body)
    ensures s in Statements(root, body) <==> IsStatement(root, body, s)
  {
    NotCommentsMeans(root, NamedChildren(root, body), s);
    NamedFromMeans(root, body, 0, s);
    if IsNamed(root, body, s) {
      NamedIsValid(root, body, s);
    }
  }

  /** `pass`, or a lone `...`. */
  ghost predicate DoesNothing(root: Tree, s: Node) {
    && Valid(root, s)
    && (At(root, s).kind == PassStatement
        || (At(root, s).kind == ExpressionStatement
            && exists c :: SoleNamed(root, s, c) && Valid(root, c) && At(root, c).kind == Ellipsis))
  }

  /** `c` is the only named child of `s`. */
  ghost predicate SoleNamed(root: Tree, s: Node, c: Node) {
    IsNamed(root, s, c) && forall d :: IsNamed(root, s, d) ==> d == c
  }

  lemma Singleton<T>(s: seq<T>, c: T)
    requires Distinct(s)
    ensures |s| == 1 && s[0] == c <==> c in s && forall d | d in s :: d == c
  {
    if |s| > 1 {
      assert s[0] in s && s[1] in s && s[0] != s[1];
    }
  }

  lemma SoleMeans(root: Tree, s: Node, c: Node)
    requires Valid(root, s)
    ensures |NamedChildren(root, s)| == 1 && NamedChildren(root, s)[0] == c <==> SoleNamed(root, s, c)
  {
    forall d
      ensures d in NamedChildren(root, s) <==> IsNamed(root, s, d)
    {
      NamedFromMeans(root, s, 0, d);
    }
    NamedDistinct(root, s, 0);
    Singleton(NamedChildren(root, s), c);
  }

  lemma {:induction false} NamedDistinct(root: Tree, n: Node, from: nat)
    requires Valid(root, n) && from <= |At(root, n).children|
    ensures Distinct(NamedFrom(root, n, from))
    decreases |At(root, n).children| - from
  {
    if from < |At(root, n).children| {
      NamedDistinct(root, n, from + 1);
      NamedFromMeans(root, n, from + 1, n + [from]);
      assert (n + [from])[|n|] == from;
    }
  }

  lemma TrivialMeans(root: Tree, s: Node)
    requires Valid(root, s)
    ensures TrivialStatement(root, s) <==> DoesNothing(root, s)
  {
    if |NamedChildren(root, s)| == 1 {
      SoleMeans(root, s, NamedChildren(root, s)[0]);
    }
    if c :| SoleNamed(root, s, c) {
      SoleMeans(root, s, c);
    }
  }

  /** The first block of an except clause. */
  ghost predicate IsBody(root: Tree, clause: Node, body: Node) {
    FirstBlockFrom(root, clause, 0, body)
  }

  ghost predicate FirstBlockFrom(root: Tree, clause: Node, from: nat, body: Node) {
    && IsNamed(root, clause, body) && body[|clause|] >= from && IsBlock(At(root, clause).children[body[|clause|]])
    && forall j | from <= j < body[|clause|] :: !IsBlock(At(root, clause).children[j])
  }

  predicate IsBlock(t: Tree) {
    t.named && t.kind == Block
  }

  lemma FirstBlockCons(root: Tree, here: Node, rest: seq<Node>)
    requires Valid(root, here) && AllValid(root, rest)
    ensures AllValid(root, [here] + rest)
    ensures FirstBlock(root, [here] + rest) == if At(root, here).kind == Block then Some(here) else FirstBlock(root, rest)
  {
    assert ([here] + rest)[1..] == rest;
  }

  lemma FirstBlockNext(root: Tree, clause: Node, from: nat)
    requires Valid(root, clause) && from < |At(root, clause).children|
    ensures FirstBlock(root, NamedFrom(root, clause, from)) ==
              if IsBlock(At(root, clause).children[from]) then Some(clause + [from])
              else FirstBlock(root, NamedFrom(root, clause, from + 1))
  {
    NamedStep(root, clause, from);
    FirstBlockCons(root, clause + [from], NamedFrom(root, clause, from + 1));
  }

  lemma BlockHere(root: Tree, clause: Node, from: nat, body: Node)
    requires Valid(root, clause) && from < |At(root, clause).children|
    ensures FirstBlockFrom(root, clause, from, body) <==>
              if IsBlock(At(root, clause).children[from]) then body == clause + [from]
              else FirstBlockFrom(root, clause, from + 1, body)
  {
    SamePlace(clause, from, body);
  }

  lemma {:induction false} FirstBlockMeans(root: Tree, clause: Node, from: nat, body: Node)
    requires Valid(root, clause) && from <= |At(root, clause).children|
    ensures FirstBlock(root, NamedFrom(root, clause, from)) == Some(body) <==> FirstBlockFrom(root, clause, from, body)
    decreases |At(root, clause).children| - from
  {
    if from < |At(root, clause).children| {
      FirstBlockMeans(root, clause, from + 1, body);
      FirstBlockNext(root, clause, from);
      BlockHere(root, clause, from, body);
    }
  }

  lemma BodyMeans(root: Tree, clause: Node, body: Node)
    requires Valid(root, clause)
    ensures ClauseBody(root, clause) == Some(body) <==> IsBody(root, clause, body)
  {
    FirstBlockMeans(root, clause, 0, body);
  }

  /** Raising, logging, or using the caught exception by its name. */
  predicate Uses(root: Tree, n: Node, alias: string)
    requires Valid(root, n)
  {
    var t := At(root, n);
    t.kind == RaiseStatement || (t.kind == Call && t.logs) || (alias != "" && t.kind == Identifier && t.text == alias)
  }

  /** A block in whose own code, definitions inside it apart, the error is neither raised, logged nor used. */
  ghost predicate Ignores(root: Tree, body: Node, alias: string) {
    forall n :: IsOwn(root, body, n) ==> !Uses(root, n, alias)
  }

  /** An except clause that discards the error: it names no type; or it names a broad one and its block
      does nothing; or it names a type that is not an expected one and its block ignores the error. */
  ghost predicate DiscardsPython(root: Tree, clause: Node)
    requires Valid(root, clause)
  {
    var t := At(root, clause);
    || t.caught == []
    || exists body :: IsBody(root, clause, body) &&
         ((BroadType in t.caught && forall s :: IsStatement(root, body, s) ==> DoesNothing(root, s))
          || ((BroadType in t.caught || OtherType in t.caught) && Ignores(root, body, t.alias)))
  }

  lemma TrivialBodyMeans(root: Tree, body: Node)
    requires Valid(root, body)
    ensures TrivialBody(root, body) <==> forall s :: IsStatement(root, body, s) ==> DoesNothing(root, s)
  {
    var statements := Statements(root, body);
    forall s
      ensures s in statements <==> IsStatement(root, body, s)
    {
      StatementsMean(root, body, s);
    }
    forall i | 0 <= i < |statements|
      ensures TrivialStatement(root, statements[i]) <==> DoesNothing(root, statements[i])
    {
      TrivialMeans(root, statements[i]);
    }
    if forall s :: IsStatement(root, body, s) ==> DoesNothing(root, s) {
      forall i | 0 <= i < |statements|
        ensures TrivialStatement(root, statements[i])
      {
        assert statements[i] in statements;
      }
    }
  }

  lemma IgnoresMeans(root: Tree, body: Node, alias: string)
    requires Valid(root, body)
    ensures !Handled(root, body, alias) <==> Ignores(root, body, alias)
  {
    HandledMeansOwnNode(root, body, alias);
    assert forall n | IsOwn(root, body, n) :: Surfaces(root, n, alias) <==> Uses(root, n, alias);
  }

  lemma UnexpectedMeans(caught: seq<Caught>)
    ensures !AllExpected(caught) <==> BroadType in caught || OtherType in caught
  {
    if i :| 0 <= i < |caught| && caught[i] != ExpectedType {
      assert caught[i] in caught;
    }
  }

  lemma SwallowsMeansPython(root: Tree, clause: Node)
    requires Valid(root, clause)
    ensures PythonSwallows(root, clause) <==> DiscardsPython(root, clause)
  {
    var t := At(root, clause);
    UnexpectedMeans(t.caught);
    forall body
      ensures ClauseBody(root, clause) == Some(body) <==> IsBody(root, clause, body)
    {
      BodyMeans(root, clause, body);
    }
    if ClauseBody(root, clause).Some? {
      var body := ClauseBody(root, clause).value;
      assert IsBody(root, clause, body);
      TrivialBodyMeans(root, body);
      IgnoresMeans(root, body, t.alias);
    }
  }

  // ------------------------------------------------------------------ calls inside statements

  /** `c` is what `n` consists of, parentheses aside: the first named child, of that the first named
      child while it is a parenthesis, and so on. */
  ghost predicate Inner(root: Tree, n: Node, c: Node) {
    && |n| < |c| && c[..|n|] == n && Valid(root, c) && At(root, c).kind != Parenthesized
    && (forall k | |n| <= k < |c| :: IsFirstNamed(root, c[..k], c[..k + 1]))
    && (forall k | |n| < k < |c| :: Valid(root, c[..k]) && At(root, c[..k]).kind == Parenthesized)
  }

  lemma InnerFirst(root: Tree, n: Node, c: Node)
    requires Inner(root, n, c)
    ensures IsFirstNamed(root, n, c[..|n| + 1])
    ensures |c| > |n| + 1 ==> Valid(root, c[..|n| + 1]) && At(root, c[..|n| + 1]).kind == Parenthesized
    ensures |c| == |n| + 1 ==> c[..|n| + 1] == c
  {
    assert IsFirstNamed(root, c[..|n|], c[..|n| + 1]);
  }

  lemma InnerHere(root: Tree, n: Node, first: Node, c: Node)
    requires IsFirstNamed(root, n, first) && Valid(root, first) && At(root, first).kind != Parenthesized
    ensures Inner(root, n, c) <==> c == first
  {
    if c == first {
      assert c[..|n|] == n && c[..|n| + 1] == c;
    }
    if Inner(root, n, c) {
      InnerFirst(root, n, c);
      SameFirst(root, n, first, c[..|n| + 1]);
    }
  }

  lemma SameFirst(root: Tree, n: Node, a: Node, b: Node)
    requires IsFirstNamed(root, n, a) && IsFirstNamed(root, n, b)
    ensures a == b
  {
    assert a == n + [a[|n|]] && b == n + [b[|n|]];
  }

  lemma InnerThrough(root: Tree, n: Node, first: Node, c: Node)
    requires IsFirstNamed(root, n, first) && Valid(root, first) && At(root, first).kind == Parenthesized
    ensures Inner(root, n, c) <==> Inner(root, first, c)
  {
    assert first[..|n|] == n;
    if Inner(root, n, c) {
      InnerFirst(root, n, c);
      SameFirst(root, n, first, c[..|n| + 1]);
      assert |c| > |n| + 1 && c[..|first|] == first;
    }
    if Inner(root, first, c) {
      assert c[..|n|] == first[..|n|] == n && c[..|n| + 1] == first;
    }
  }

  lemma InnerNone(root: Tree, n: Node, c: Node)
    requires Valid(root, n) && FirstNamed(root, n) == None
    ensures !Inner(root, n, c)
  {
    if Inner(root, n, c) {
      InnerFirst(root, n, c);
      FirstNamedMeans(root, n, c[..|n| + 1]);
    }
  }

  lemma {:induction false} UnwrappedMeans(root: Tree, n: Node, c: Node)
    requires Valid(root, n)
    ensures Unwrapped(root, FirstNamed(root, n)) == Some(c) <==> Inner(root, n, c)
    decreases At(root, n)
  {
    if FirstNamed(root, n) == None {
      InnerNone(root, n, c);
    } else {
      var first := FirstNamed(root, n).value;
      FirstNamedMeans(root, n, first);
      if At(root, first).kind == Parenthesized {
        InnerThrough(root, n, first, c);
        UnwrappedMeans(root, first, c);
      } else {
        InnerHere(root, n, first, c);
      }
    }
  }

  /** `n` consists of the call `c`. */
  ghost predicate ConsistsOf(root: Tree, n: Node, c: Node) {
    Inner(root, n, c) && At(root, c).kind == Call
  }

  lemma CallInMeans(root: Tree, n: Node, c: Node)
    requires Valid(root, n)
    ensures CallIn(root, n) == Some(c) <==> ConsistsOf(root, n, c)
  {
    UnwrappedMeans(root, n, c);
  }

  /** `call` calls a member of something that reads `owner`. */
  ghost predicate CallsMemberOf(root: Tree, call: Node, owner: string) {
    exists m, o :: IsField(root, call, FunctionField, m) && Valid(root, m) && At(root, m).kind == Member
                   && IsField(root, m, ObjectField, o) && Valid(root, o) && At(root, o).text == owner
  }

  ghost predicate LogsToConsole(root: Tree, s: Node) {
    && Valid(root, s) && At(root, s).kind == ExpressionStatement
    && exists call :: ConsistsOf(root, s, call) && CallsMemberOf(root, call, "console")
  }

  lemma MemberMeans(root: Tree, call: Node, owner: string)
    requires Valid(root, call) && At(root, call).kind == Call && owner != ""
    ensures CallsMemberOf(root, call, owner) <==>
              CalledMember(root, call).Some? && TextBy(root, CalledMember(root, call).value, ObjectField) == owner
  {
    if CalledMember(root, call).Some? {
      var m := CalledMember(root, call).value;
      ChildByMeans(root, call, FunctionField, m);
      if ChildBy(root, m, ObjectField).Some? {
        ChildByMeans(root, m, ObjectField, ChildBy(root, m, ObjectField).value);
      }
    }
    if m, o :| IsField(root, call, FunctionField, m) && Valid(root, m) && At(root, m).kind == Member
               && IsField(root, m, ObjectField, o) && Valid(root, o) && At(root, o).text == owner {
      ChildByMeans(root, call, FunctionField, m);
      ChildByMeans(root, m, ObjectField, o);
    }
  }

  lemma ConsoleMeans(root: Tree, s: Node)
    requires Valid(root, s)
    ensures ConsoleCall(root, s) <==> LogsToConsole(root, s)
  {
    if CallIn(root, s).Some? {
      var call := CallIn(root, s).value;
      CallInMeans(root, s, call);
      MemberMeans(root, call, "console");
    }
    if call :| ConsistsOf(root, s, call) && CallsMemberOf(root, call, "console") {
      CallInMeans(root, s, call);
      MemberMeans(root, call, "console");
    }
  }

  /** A catch clause that discards the error: all its statements, if any, log to the console. */
  ghost predicate DiscardsJs(root: Tree, clause: Node) {
    exists body :: IsField(root, clause, BodyField, body) &&
      forall s :: IsStatement(root, body, s) ==> LogsToConsole(root, s)
  }

  lemma ConsoleBodyMeans(root: Tree, body: Node)
    requires Valid(root, body)
    ensures (forall i | 0 <= i < |Statements(root, body)| :: ConsoleCall(root, Statements(root, body)[i])) <==>
              forall s :: IsStatement(root, body, s) ==> LogsToConsole(root, s)
  {
    var statements := Statements(root, body);
    forall s
      ensures s in statements <==> IsStatement(root, body, s)
    {
      StatementsMean(root, body, s);
    }
    forall i | 0 <= i < |statements|
      ensures ConsoleCall(root, statements[i]) <==> LogsToConsole(root, statements[i])
    {
      ConsoleMeans(root, statements[i]);
    }
    if forall s :: IsStatement(root, body, s) ==> LogsToConsole(root, s) {
      forall i | 0 <= i < |statements|
        ensures ConsoleCall(root, statements[i])
      {
        assert statements[i] in statements;
      }
    }
  }

  lemma SwallowsMeansJs(root: Tree, clause: Node)
    requires Valid(root, clause)
    ensures JsSwallows(root, clause) <==> DiscardsJs(root, clause)
  {
    forall body
      ensures ChildBy(root, clause, BodyField) == Some(body) <==> IsField(root, clause, BodyField, body)
    {
      ChildByMeans(root, clause, BodyField, body);
    }
    if ChildBy(root, clause, BodyField).Some? {
      ConsoleBodyMeans(root, ChildBy(root, clause, BodyField).value);
    }
  }

  // ------------------------------------------------------------------ chains

  /** The positions of the arguments in an argument list. */
  ghost function Places(root: Tree, list: Node, from: nat): set<nat>
    requires Valid(root, list)
  {
    ArgumentsFrom(At(root, list).children, from)
  }

  ghost function ArgumentsFrom(children: seq<Tree>, from: nat): set<nat> {
    set i: nat | from <= i < |children| && IsArgument(children[i])
  }

  predicate IsArgument(t: Tree) {
    t.named && t.kind != Comment
  }

  lemma ArgumentsStep(children: seq<Tree>, from: nat)
    requires from < |children|
    ensures |ArgumentsFrom(children, from)| == |ArgumentsFrom(children, from + 1)| + One(IsArgument(children[from]))
  {
    if IsArgument(children[from]) {
      assert ArgumentsFrom(children, from) == ArgumentsFrom(children, from + 1) + {from};
    } else {
      assert ArgumentsFrom(children, from) == ArgumentsFrom(children, from + 1);
    }
  }

  lemma NotCommentsCons(root: Tree, here: Node, rest: seq<Node>)
    requires Valid(root, here) && AllValid(root, rest)
    ensures AllValid(root, [here] + rest)
    ensures |NotComments(root, [here] + rest)| == |NotComments(root, rest)| + One(At(root, here).kind != Comment)
  {
    assert ([here] + rest)[1..] == rest;
  }

  lemma StatementsStep(root: Tree, n: Node, from: nat)
    requires Valid(root, n) && from < |At(root, n).children|
    ensures |NotComments(root, NamedFrom(root, n, from))| ==
              |NotComments(root, NamedFrom(root, n, from + 1))| + One(IsArgument(At(root, n).children[from]))
  {
    NamedStep(root, n, from);
    NotCommentsCons(root, n + [from], NamedFrom(root, n, from + 1));
  }

  lemma {:induction false} StatementsCount(root: Tree, n: Node, from: nat)
    requires Valid(root, n) && from <= |At(root, n).children|
    ensures |NotComments(root, NamedFrom(root, n, from))| == |Places(root, n, from)|
    decreases |At(root, n).children| - from
  {
    if from < |At(root, n).children| {
      StatementsCount(root, n, from + 1);
      StatementsStep(root, n, from);
      ArgumentsStep(At(root, n).children, from);
    } else {
      assert Places(root, n, from) == {};
    }
  }

  /** What a link of a chain says: the name after the dot, and how many arguments the call has. */
  ghost predicate IsLink(root: Tree, member: Node, call: Node, l: Link)
    requires Valid(root, member) && Valid(root, call)
  {
    && (forall p :: IsField(root, member, PropertyField, p) && Valid(root, p) ==> l.property == At(root, p).text)
    && ((forall p :: !IsField(root, member, PropertyField, p)) ==> l.property == "")
    && (forall a :: IsField(root, call, ArgumentsField, a) && Valid(root, a) ==> l.arguments == |Places(root, a, 0)|)
    && ((forall a :: !IsField(root, call, ArgumentsField, a)) ==> l.arguments == 0)
  }

  lemma LinkMeans(root: Tree, member: Node, call: Node)
    requires Valid(root, member) && Valid(root, call)
    ensures IsLink(root, member, call, LinkOf(root, member, call))
  {
    forall p | IsField(root, member, PropertyField, p) && Valid(root, p)
      ensures LinkOf(root, member, call).property == At(root, p).text
    {
      ChildByMeans(root, member, PropertyField, p);
    }
    forall a | IsField(root, call, ArgumentsField, a) && Valid(root, a)
      ensures LinkOf(root, member, call).arguments == |Places(root, a, 0)|
    {
      ChildByMeans(root, call, ArgumentsField, a);
      StatementsCount(root, a, 0);
    }
    if ChildBy(root, member, PropertyField).Some? {
      ChildByMeans(root, member, PropertyField, ChildBy(root, member, PropertyField).value);
    }
    if ChildBy(root, call, ArgumentsField).Some? {
      ChildByMeans(root, call, ArgumentsField, ChildBy(root, call, ArgumentsField).value);
    }
  }

  /** `outer` calls `member`, whose object is `n`: `n.member(...)`. */
  predicate ChainedOnto(root: Tree, n: Node, member: Node, outer: Node) {
    && Valid(root, outer) && At(root, outer).kind == Call && IsField(root, outer, FunctionField, member)
    && Valid(root, member) && At(root, member).kind == Member && IsField(root, member, ObjectField, n)
  }

  lemma ChainedMeans(root: Tree, n: Node)
    requires Valid(root, n)
    ensures Chained(root, n) <==> |n| >= 2 && ChainedOnto(root, n, Parent(n), Parent(Parent(n)))
  {
    if |n| >= 2 {
      PrefixesAreValid(root, n);
      ChildByMeans(root, Parent(n), ObjectField, n);
      ChildByMeans(root, Parent(Parent(n)), FunctionField, Parent(n));
    }
  }

  lemma OntoParents(root: Tree, n: Node, member: Node, outer: Node)
    requires ChainedOnto(root, n, member, outer)
    ensures |n| >= 2 && member == Parent(n) && outer == Parent(Parent(n))
  {
  }

  /** The chain above a node: a link for each call chained onto it, from the nearest outwards. */
  lemma AboveMeans(root: Tree, n: Node)
    requires Valid(root, n)
    ensures (exists member, outer :: ChainedOnto(root, n, member, outer)) <==> Above(root, n) != []
    ensures forall member, outer | ChainedOnto(root, n, member, outer) ::
              IsLink(root, member, outer, Above(root, n)[0]) && Above(root, n)[1..] == Above(root, outer)
  {
    ChainedMeans(root, n);
    forall member, outer | ChainedOnto(root, n, member, outer)
      ensures Above(root, n) != []
      ensures IsLink(root, member, outer, Above(root, n)[0]) && Above(root, n)[1..] == Above(root, outer)
    {
      OntoParents(root, n, member, outer);
      LinkMeans(root, member, outer);
    }
  }

  /** `call` calls the member expression `member`. */
  predicate CallsMember(root: Tree, call: Node, member: Node) {
    && Valid(root, call) && At(root, call).kind == Call && IsField(root, call, FunctionField, member)
    && Valid(root, member) && At(root, member).kind == Member
  }

  lemma CalledMeans(root: Tree, call: Node, member: Node)
    requires Valid(root, call)
    ensures CalledMember(root, call) == Some(member) <==> CallsMember(root, call, member)
  {
    ChildByMeans(root, call, FunctionField, member);
  }

  /** The chain from a call down: a link if a member is called, then what is below the member's object. */
  lemma BelowMeans(root: Tree, call: Node, member: Node)
    requires CallsMember(root, call, member)
    ensures Below(root, call) != [] && IsLink(root, member, call, Below(root, call)[0])
    ensures forall o | IsField(root, member, ObjectField, o) && Valid(root, o) :: Below(root, call)[1..] == Below(root, o)
    ensures (forall o :: !IsField(root, member, ObjectField, o)) ==> |Below(root, call)| == 1
  {
    CalledMeans(root, call, member);
    LinkMeans(root, member, call);
    forall o
      ensures ChildBy(root, member, ObjectField) == Some(o) <==> IsField(root, member, ObjectField, o)
    {
      ChildByMeans(root, member, ObjectField, o);
    }
  }

  lemma NothingBelow(root: Tree, call: Node)
    requires Valid(root, call) && forall member :: !CallsMember(root, call, member)
    ensures Below(root, call) == []
  {
    if CalledMember(root, call).Some? {
      CalledMeans(root, call, CalledMember(root, call).value);
    }
  }

  /** A `catch`, or a `then` with a second argument. */
  ghost predicate Rejected(links: seq<Link>) {
    exists l | l in links :: l.property == "catch" || (l.property == "then" && l.arguments > 1)
  }

  ghost predicate HasThenLink(links: seq<Link>) {
    exists l | l in links :: l.property == "then"
  }

  lemma RejectedMeans(links: seq<Link>)
    ensures HandlesRejection(links) <==> Rejected(links)
    ensures HasThen(links) <==> HasThenLink(links)
  {
    if i :| 0 <= i < |links| && Rejects(links[i]) {
      assert links[i] in links;
    }
    if l :| l in links && (l.property == "catch" || (l.property == "then" && l.arguments > 1)) {
      var i :| 0 <= i < |links| && links[i] == l;
      assert Rejects(links[i]);
    }
  }

  /** `c` is a call of the chain that ends at `call`. */
  ghost predicate InChain(root: Tree, c: Node, call: Node)
    decreases |c|
  {
    && Valid(root, c) && At(root, c).kind == Call
    && (c == call || (|c| >= 2 && ChainedOnto(root, c, Parent(c), Parent(Parent(c))) && InChain(root, Parent(Parent(c)), call)))
  }

  lemma {:induction false} InChainLonger(root: Tree, c: Node, call: Node)
    requires InChain(root, c, call)
    ensures |c| >= |call|
    decreases |c|
  {
    if c != call {
      InChainLonger(root, Parent(Parent(c)), call);
    }
  }

  lemma {:induction false} InChainPasses(root: Tree, c: Node, call: Node, member: Node, o: Node)
    requires Valid(root, call) && At(root, call).kind == Call && Valid(root, o) && ChainedOnto(root, o, member, call)
    ensures InChain(root, c, call) <==> c == call || InChain(root, c, o)
    decreases |c|
  {
    OntoParents(root, o, member, call);
    if |c| >= 2 && Valid(root, c) && ChainedOnto(root, c, Parent(c), Parent(Parent(c))) {
      InChainPasses(root, Parent(Parent(c)), call, member, o);
      if Parent(Parent(c)) == call {
        ObjectUnique(root, call, member, o, Parent(c), c);
      }
    }
  }

  lemma ObjectUnique(root: Tree, call: Node, m: Node, o: Node, m': Node, o': Node)
    requires ChainedOnto(root, o, m, call) && ChainedOnto(root, o', m', call)
    ensures m == m' && o == o'
  {
    ChildByMeans(root, call, FunctionField, m);
    ChildByMeans(root, call, FunctionField, m');
    ChildByMeans(root, m, ObjectField, o);
    ChildByMeans(root, m, ObjectField, o');
  }

  lemma {:induction false} ChainEnds(root: Tree, c: Node, call: Node)
    requires Valid(root, call) && At(root, call).kind == Call
    requires forall m, o :: !ChainedOnto(root, o, m, call)
    ensures InChain(root, c, call) <==> c == call
    decreases |c|
  {
    if |c| >= 2 && Valid(root, c) && ChainedOnto(root, c, Parent(c), Parent(Parent(c))) {
      ChainEnds(root, Parent(Parent(c)), call);
    }
  }

  lemma {:induction false} CallsBelowMeans(root: Tree, call: Node, c: Node)
    requires Valid(root, call)
    ensures c in CallsBelow(root, call) <==> At(root, call).kind == Call && InChain(root, c, call)
    decreases At(root, call)
  {
    if At(root, call).kind == Call {
      var member := CalledMember(root, call);
      if member.Some? && ChildBy(root, member.value, ObjectField).Some? {
        var m, o := member.value, ChildBy(root, member.value, ObjectField).value;
        ChildByMeans(root, call, FunctionField, m);
        ChildByMeans(root, m, ObjectField, o);
        CallsBelowMeans(root, o, c);
        InChainPasses(root, c, call, m, o);
        NotCallNotInChain(root, c, o);
      } else {
        forall m, o
          ensures !ChainedOnto(root, o, m, call)
        {
          if ChainedOnto(root, o, m, call) {
            ChildByMeans(root, call, FunctionField, m);
            ChildByMeans(root, m, ObjectField, o);
          }
        }
        ChainEnds(root, c, call);
      }
    }
  }

  lemma {:induction false} NotCallNotInChain(root: Tree, c: Node, o: Node)
    requires Valid(root, o)
    ensures At(root, o).kind != Call ==> !InChain(root, c, o)
    decreases |c|
  {
    if |c| >= 2 && Valid(root, c) && ChainedOnto(root, c, Parent(c), Parent(Parent(c))) {
      NotCallNotInChain(root, Parent(Parent(c)), o);
    }
  }

  // ------------------------------------------------------------------ async functions

  /** `n[..k]` is the nearest function around `n`. */
  ghost predicate NearestFunction(root: Tree, n: Node, k: nat) {
    && k < |n| && Valid(root, n[..k]) && At(root, n[..k]).kind == Function
    && forall j | k < j < |n| :: Valid(root, n[..j]) && At(root, n[..j]).kind != Function
  }

  /** The nearest function around `n` has the keyword `async`. */
  ghost predicate InAsync(root: Tree, n: Node) {
    exists k: nat :: NearestFunction(root, n, k) &&
      exists i: nat :: i < |At(root, n[..k]).children| && !At(root, n[..k]).children[i].named
                       && At(root, n[..k]).children[i].kind == Async
  }

  lemma NearestStep(root: Tree, n: Node, k: nat)
    requires Valid(root, n) && n != [] && Valid(root, Parent(n))
    ensures NearestFunction(root, n, k) <==>
              if At(root, Parent(n)).kind == Function then k == |n| - 1 else NearestFunction(root, Parent(n), k)
  {
    var p := Parent(n);
    assert n[..|p|] == p;
    assert forall j | 0 <= j <= |p| :: n[..j] == p[..j];
    if k < |p| && NearestFunction(root, n, k) {
      assert Valid(root, n[..|p|]) && At(root, n[..|p|]).kind != Function;
    }
  }

  lemma {:induction false} EnclosingMeans(root: Tree, n: Node, k: nat)
    requires Valid(root, n)
    ensures k <= |n| ==> (Enclosing(root, n) == Some(n[..k]) <==> NearestFunction(root, n, k))
    ensures Enclosing(root, n).Some? ==> exists j: nat :: j < |n| && Enclosing(root, n) == Some(n[..j])
    decreases |n|
  {
    if n != [] {
      PrefixesAreValid(root, n);
      var p := Parent(n);
      assert n[..|p|] == p && |n[..|n|]| == |n|;
      assert forall j | 0 <= j <= |p| :: n[..j] == p[..j];
      EnclosingMeans(root, p, if k <= |p| then k else |p|);
      NearestStep(root, n, k);
      if k <= |n| && n[..k] == p {
        assert k == |p|;
      }
      EnclosingShorter(root, p);
    }
  }

  lemma {:induction false} EnclosingShorter(root: Tree, n: Node)
    requires Valid(root, n)
    ensures Enclosing(root, n).Some? ==> |Enclosing(root, n).value| < |n|
    decreases |n|
  {
    if n != [] {
      PrefixesAreValid(root, n);
      EnclosingShorter(root, Parent(n));
    }
  }

  lemma AsyncMeans(root: Tree, n: Node)
    requires Valid(root, n)
    ensures Enclosing(root, n).Some? && IsAsync(At(root, Enclosing(root, n).value)) <==> InAsync(root, n)
  {
    if Enclosing(root, n).Some? {
      EnclosingMeans(root, n, 0);
      var k: nat :| k < |n| && Enclosing(root, n) == Some(n[..k]);
      EnclosingMeans(root, n, k);
    }
    if k: nat :| NearestFunction(root, n, k) {
      EnclosingMeans(root, n, k);
      UniqueNearest(root, n);
    }
  }

  lemma UniqueNearest(root: Tree, n: Node)
    ensures forall j: nat, k: nat :: NearestFunction(root, n, j) && NearestFunction(root, n, k) ==> j == k
  {
  }

  // ------------------------------------------------------------------ try bodies

  /** Code of a function that runs when it is called, not where it is written. */
  predicate IsFunction(language: Language, t: Tree) {
    t.kind == Function || (language == Python && t.kind == Lambda)
  }

  /** `n[..k]` is a try statement and `n` is in its body field, with no function between the two. */
  ghost predicate InBodyOf(language: Language, root: Tree, n: Node, k: nat) {
    && k < |n| && Valid(root, n[..k]) && At(root, n[..k]).kind == TryStatement
    && IsField(root, n[..k], BodyField, n[..k + 1])
    && forall j | k < j < |n| :: Valid(root, n[..j]) && !IsFunction(language, At(root, n[..j]))
  }

  ghost predicate InTryBody(language: Language, root: Tree, n: Node) {
    exists k: nat :: InBodyOf(language, root, n, k)
  }

  lemma TriedMeans(language: Language, root: Tree, n: Node, k: nat)
    requires Valid(root, n) && k < |n|
    ensures TriedAt(language, root, n, k) <==> InBodyOf(language, root, n, k)
  {
    PrefixValid(root, n, k);
    ChildByMeans(root, n[..k], BodyField, n[..k + 1]);
    forall j | k < j < |n|
      ensures Valid(root, n[..j]) && (FunctionAt(language, root, n, j) <==> IsFunction(language, At(root, n[..j])))
    {
      PrefixValid(root, n, j);
    }
  }

  lemma TryMeans(language: Language, root: Tree, n: Node)
    requires Valid(root, n)
    ensures Inside(language, root, n) <==> InTryBody(language, root, n)
  {
    InsideMeansInsideTry(language, root, n);
    if k :| 0 <= k < |n| && TriedAt(language, root, n, k) {
      TriedMeans(language, root, n, k);
    }
    if k: nat :| InBodyOf(language, root, n, k) {
      TriedMeans(language, root, n, k);
    }
  }

  // ------------------------------------------------------------------ what each counter counts

  datatype Measure = Handlers | Swallowed | IoSites | IoWrapped | IoUnwrapped | PromiseSites | Unhandled

  function Read(m: Measure, t: Tally): nat {
    match m
    case Handlers => t.handlers
    case Swallowed => t.swallowed
    case IoSites => t.ioSites
    case IoWrapped => t.ioWrapped
    case IoUnwrapped => t.ioUnwrapped
    case PromiseSites => t.promiseSites
    case Unhandled => t.unhandled
  }

  ghost predicate CountedPython(m: Measure, root: Tree, n: Node)
    requires Valid(root, n)
  {
    var t := At(root, n);
    match m
    case Handlers => t.kind == ExceptClause
    case Swallowed => t.kind == ExceptClause && DiscardsPython(root, n)
    case IoSites => t.kind == Call && t.io
    case IoWrapped => t.kind == Call && t.io && InTryBody(Python, root, n)
    case IoUnwrapped => t.kind == Call && t.io && !InTryBody(Python, root, n)
    case PromiseSites => false
    case Unhandled => false
  }

  /** An I/O site in a try body, or a call whose chain handles the rejection further out. */
  ghost predicate WrappedJs(root: Tree, n: Node)
    requires Valid(root, n)
  {
    InTryBody(JavaScript, root, n) || (At(root, n).kind == Call && Rejected(Above(root, n)))
  }

  /** A statement that is a chain with a `then`. */
  ghost predicate ThenChain(root: Tree, n: Node, call: Node)
    requires Valid(root, n)
  {
    At(root, n).kind == ExpressionStatement && ConsistsOf(root, n, call) && HasThenLink(Below(root, call))
  }

  /** An `await`, in an async function, of a chain with an I/O call in it. */
  ghost predicate AwaitedChain(root: Tree, n: Node, call: Node)
    requires Valid(root, n)
  {
    && At(root, n).kind == AwaitExpression && ConsistsOf(root, n, call) && InAsync(root, n)
    && exists c :: InChain(root, c, call) && At(root, c).io
  }

  ghost predicate PromiseAt(root: Tree, n: Node, call: Node)
    requires Valid(root, n)
  {
    ThenChain(root, n, call) || AwaitedChain(root, n, call)
  }

  /** A promise whose chain does not handle the rejection, and that is not awaited in a try body. */
  ghost predicate UnhandledAt(root: Tree, n: Node, call: Node)
    requires Valid(root, n)
  {
    && (ThenChain(root, n, call) || (AwaitedChain(root, n, call) && !InTryBody(JavaScript, root, n)))
    && !Rejected(Below(root, call))
  }

  /** A statement or an `await` consists of one call at most. */
  lemma PromisesOfCall(root: Tree, n: Node, call: Node)
    requires Valid(root, n) && CallIn(root, n) == Some(call)
    ensures Valid(root, call) && ConsistsOf(root, n, call)
    ensures (exists c :: PromiseAt(root, n, c)) <==> PromiseAt(root, n, call)
    ensures (exists c :: UnhandledAt(root, n, c)) <==> UnhandledAt(root, n, call)
  {
    CallInMeans(root, n, call);
    forall c | ConsistsOf(root, n, c)
      ensures c == call
    {
      CallInMeans(root, n, c);
    }
  }

  lemma NoPromises(root: Tree, n: Node)
    requires Valid(root, n) && CallIn(root, n) == None
    ensures forall c :: !PromiseAt(root, n, c) && !UnhandledAt(root, n, c)
  {
    forall c
      ensures !ConsistsOf(root, n, c)
    {
      CallInMeans(root, n, c);
    }
  }

  ghost predicate CountedJs(m: Measure, root: Tree, n: Node)
    requires Valid(root, n)
  {
    var t := At(root, n);
    var site := (t.kind == Call || t.kind == New) && t.io;
    match m
    case Handlers => t.kind == CatchClause
    case Swallowed => t.kind == CatchClause && DiscardsJs(root, n)
    case IoSites => site
    case IoWrapped => site && WrappedJs(root, n)
    case IoUnwrapped => site && !WrappedJs(root, n)
    case PromiseSites => exists call :: PromiseAt(root, n, call)
    case Unhandled => exists call :: UnhandledAt(root, n, call)
  }

  ghost predicate Counted(m: Measure, language: Language, root: Tree, n: Node)
    requires Valid(root, n)
  {
    if language == Python then CountedPython(m, root, n) else CountedJs(m, root, n)
  }

  lemma PythonCounted(m: Measure, root: Tree, n: Node)
    requires Valid(root, n)
    ensures Read(m, PythonTally(root, n)) == One(CountedPython(m, root, n))
  {
    SwallowsMeansPython(root, n);
    TryMeans(Python, root, n);
  }

  lemma IoCounted(m: Measure, root: Tree, n: Node)
    requires Valid(root, n) && (At(root, n).kind == Call || At(root, n).kind == New) && At(root, n).io
    ensures Read(m, JsTally(root, n)) == One(CountedJs(m, root, n))
  {
    TryMeans(JavaScript, root, n);
    RejectedMeans(Above(root, n));
  }

  lemma StatementPromise(root: Tree, n: Node, call: Node)
    requires Valid(root, n) && At(root, n).kind == ExpressionStatement && CallIn(root, n) == Some(call)
    ensures StatementTally(root, n) ==
              if PromiseAt(root, n, call) then PromiseTally(!UnhandledAt(root, n, call)) else NOTHING
  {
    CallInMeans(root, n, call);
    RejectedMeans(Below(root, call));
  }

  lemma StatementCounted(m: Measure, root: Tree, n: Node)
    requires Valid(root, n) && At(root, n).kind == ExpressionStatement
    ensures Read(m, JsTally(root, n)) == One(CountedJs(m, root, n))
  {
    if CallIn(root, n).Some? {
      var call := CallIn(root, n).value;
      PromisesOfCall(root, n, call);
      StatementPromise(root, n, call);
    } else {
      NoPromises(root, n);
    }
  }

  lemma AnyIoMeans(root: Tree, call: Node)
    requires Valid(root, call) && At(root, call).kind == Call
    ensures AllValid(root, CallsBelow(root, call))
    ensures AnyIo(root, CallsBelow(root, call)) <==> exists c :: InChain(root, c, call) && At(root, c).io
  {
    var calls := CallsBelow(root, call);
    forall c
      ensures c in calls <==> InChain(root, c, call)
    {
      CallsBelowMeans(root, call, c);
    }
    if AnyIo(root, calls) {
      var i :| 0 <= i < |calls| && At(root, calls[i]).io;
      assert calls[i] in calls;
    }
    if c :| InChain(root, c, call) && At(root, c).io {
      assert c in calls;
    }
  }

  lemma AwaitsMeans(root: Tree, n: Node, call: Node)
    requires Valid(root, n) && At(root, n).kind == AwaitExpression && ConsistsOf(root, n, call)
    ensures AwaitsIo(root, n) <==> AwaitedChain(root, n, call)
  {
    CallInMeans(root, n, call);
    AsyncMeans(root, n);
    AnyIoMeans(root, call);
  }

  lemma AwaitPromise(root: Tree, n: Node, call: Node)
    requires Valid(root, n) && At(root, n).kind == AwaitExpression && CallIn(root, n) == Some(call)
    ensures AwaitTally(root, n) ==
              if PromiseAt(root, n, call) then PromiseTally(!UnhandledAt(root, n, call)) else NOTHING
  {
    CallInMeans(root, n, call);
    TryMeans(JavaScript, root, n);
    AwaitsMeans(root, n, call);
    RejectedMeans(Below(root, call));
  }

  lemma AwaitCounted(m: Measure, root: Tree, n: Node)
    requires Valid(root, n) && At(root, n).kind == AwaitExpression
    ensures Read(m, JsTally(root, n)) == One(CountedJs(m, root, n))
  {
    if CallIn(root, n).Some? {
      var call := CallIn(root, n).value;
      PromisesOfCall(root, n, call);
      AwaitPromise(root, n, call);
    } else {
      NoPromises(root, n);
    }
  }

  lemma JsCounted(m: Measure, root: Tree, n: Node)
    requires Valid(root, n)
    ensures Read(m, JsTally(root, n)) == One(CountedJs(m, root, n))
  {
    var t := At(root, n);
    SwallowsMeansJs(root, n);
    if (t.kind == Call || t.kind == New) && t.io {
      IoCounted(m, root, n);
    } else if t.kind == ExpressionStatement {
      StatementCounted(m, root, n);
    } else if t.kind == AwaitExpression {
      AwaitCounted(m, root, n);
    }
  }

  /** A node adds one to exactly the counters that count it. */
  lemma NodeCounted(m: Measure, language: Language, root: Tree, n: Node)
    requires Valid(root, n)
    ensures Read(m, NodeTally(language, root, n)) == One(Counted(m, language, root, n))
  {
    if language == Python {
      PythonCounted(m, root, n);
    } else {
      JsCounted(m, root, n);
    }
  }

  // ------------------------------------------------------------------ over all trees

  ghost function CountedAmong(m: Measure, language: Language, root: Tree, nodes: seq<Node>): set<Node>
    requires AllValid(root, nodes)
  {
    set i | 0 <= i < |nodes| && Counted(m, language, root, nodes[i]) :: nodes[i]
  }

  lemma AmongMeans(m: Measure, language: Language, root: Tree, nodes: seq<Node>, n: Node)
    requires AllValid(root, nodes) && Valid(root, n)
    ensures n in CountedAmong(m, language, root, nodes) <==> n in nodes && Counted(m, language, root, n)
  {
    if n in nodes {
      var i :| 0 <= i < |nodes| && nodes[i] == n;
    }
  }

  lemma AmongValid(m: Measure, language: Language, root: Tree, nodes: seq<Node>, n: Node)
    requires AllValid(root, nodes) && n in CountedAmong(m, language, root, nodes)
    ensures Valid(root, n)
  {
  }

  lemma AllValidStep(root: Tree, front: seq<Node>, last: Node)
    requires AllValid(root, front) && Valid(root, last)
    ensures AllValid(root, front + [last])
  {
  }

  lemma AmongStep(m: Measure, language: Language, root: Tree, front: seq<Node>, last: Node)
    requires AllValid(root, front) && Valid(root, last) && last !in front && AllValid(root, front + [last])
    ensures |CountedAmong(m, language, root, front + [last])| ==
              |CountedAmong(m, language, root, front)| + One(Counted(m, language, root, last))
  {
    var a, b := CountedAmong(m, language, root, front + [last]), CountedAmong(m, language, root, front);
    var c := if Counted(m, language, root, last) then {last} else {};
    AmongMeans(m, language, root, front, last);
    AmongMeans(m, language, root, front + [last], last);
    forall n
      ensures n in a <==> n in b + c
    {
      AmongOthers(m, language, root, front, last, n);
    }
    assert a == b + c;
  }

  lemma AmongOthers(m: Measure, language: Language, root: Tree, front: seq<Node>, last: Node, n: Node)
    requires AllValid(root, front) && Valid(root, last) && AllValid(root, front + [last])
    ensures n in CountedAmong(m, language, root, front + [last]) <==>
              n in CountedAmong(m, language, root, front) || (n == last && Counted(m, language, root, last))
  {
    if Valid(root, n) {
      AmongMeans(m, language, root, front, n);
      AmongMeans(m, language, root, front + [last], n);
    } else {
      if n in CountedAmong(m, language, root, front + [last]) {
        AmongValid(m, language, root, front + [last], n);
      }
      if n in CountedAmong(m, language, root, front) {
        AmongValid(m, language, root, front, n);
      }
    }
  }

  lemma ReadPlus(m: Measure, a: Tally, b: Tally)
    ensures Read(m, a.Plus(b)) == Read(m, a) + Read(m, b)
  {
  }

  lemma {:induction false} NodesCounted(m: Measure, language: Language, root: Tree, nodes: seq<Node>)
    requires AllValid(root, nodes) && Distinct(nodes)
    ensures Read(m, NodesTally(language, root, nodes)) == |CountedAmong(m, language, root, nodes)|
  {
    if nodes != [] {
      var front, last := nodes[..|nodes| - 1], nodes[|nodes| - 1];
      assert nodes == front + [last];
      NodesCounted(m, language, root, front);
      NodeCounted(m, language, root, last);
      AllValidStep(root, front, last);
      AmongStep(m, language, root, front, last);
      ReadPlus(m, NodesTally(language, root, front), NodeTally(language, root, last));
    }
  }

  /** A node of one of the trees. */
  datatype Site = Site(tree: nat, node: Node)

  /** All the nodes of the trees that are counted, and nothing else. */
  ghost predicate IsAll(m: Measure, trees: seq<Source>, sites: set<Site>) {
    forall t: nat, n: Node :: Site(t, n) in sites <==>
      t < |trees| && Valid(trees[t].root, n) && Counted(m, trees[t].language, trees[t].root, n)
  }

  ghost function Under(t: nat, nodes: set<Node>): set<Site> {
    set n | n in nodes :: Site(t, n)
  }

  lemma {:induction false} UnderCount(t: nat, nodes: set<Node>)
    ensures |Under(t, nodes)| == |nodes|
    decreases |nodes|
  {
    if nodes == {} {
      assert Under(t, nodes) == {};
    } else {
      var n :| n in nodes;
      UnderCount(t, nodes - {n});
      assert Under(t, nodes) == Under(t, nodes - {n}) + {Site(t, n)};
    }
  }

  ghost function TreeCounted(m: Measure, source: Source): (s: set<Node>)
    ensures forall n :: n in s <==> Valid(source.root, n) && Counted(m, source.language, source.root, n)
  {
    WalkIsExact(source.root);
    WalkValid(source.root);
    var nodes := Visited(source.root, [], false);
    var s := CountedAmong(m, source.language, source.root, nodes);
    assert forall n | n in nodes && Counted(m, source.language, source.root, n) :: n in s;
    s
  }

  lemma TreeCount(m: Measure, source: Source)
    ensures AllValid(source.root, Visited(source.root, [], false))
    ensures Read(m, NodesTally(source.language, source.root, Visited(source.root, [], false))) == |TreeCounted(m, source)|
  {
    WalkIsExact(source.root);
    WalkValid(source.root);
    NodesCounted(m, source.language, source.root, Visited(source.root, [], false));
  }

  ghost function AllCounted(m: Measure, trees: seq<Source>): set<Site> {
    if trees == [] then {} else
      AllCounted(m, trees[..|trees| - 1]) + Under(|trees| - 1, TreeCounted(m, trees[|trees| - 1]))
  }

  lemma {:induction false} AllCountedIsAll(m: Measure, trees: seq<Source>)
    ensures IsAll(m, trees, AllCounted(m, trees))
  {
    if trees != [] {
      var front, last := trees[..|trees| - 1], trees[|trees| - 1];
      AllCountedIsAll(m, front);
      forall t: nat, n: Node
        ensures Site(t, n) in AllCounted(m, trees) <==>
                  t < |trees| && Valid(trees[t].root, n) && Counted(m, trees[t].language, trees[t].root, n)
      {
        assert Site(t, n) in Under(|front|, TreeCounted(m, last)) <==> t == |front| && n in TreeCounted(m, last);
      }
    }
  }

  lemma {:induction false} TreesCounted(m: Measure, trees: seq<Source>)
    ensures Read(m, TreesTally(trees)) == |AllCounted(m, trees)|
  {
    if trees != [] {
      var front, last := trees[..|trees| - 1], trees[|trees| - 1];
      TreesCounted(m, front);
      TreeCount(m, last);
      UnderCount(|front|, TreeCounted(m, last));
      AllCountedIsAll(m, front);
      WalkValid(last.root);
      ReadPlus(m, TreesTally(front), NodesTally(last.language, last.root, Visited(last.root, [], false)));
      assert AllCounted(m, front) !! Under(|front|, TreeCounted(m, last));
    }
  }

  lemma OnlyOneIsAll(m: Measure, trees: seq<Source>, a: set<Site>, b: set<Site>)
    requires IsAll(m, trees, a) && IsAll(m, trees, b)
    ensures a == b
  {
    forall s: Site
      ensures s in a <==> s in b
    {
      assert s == Site(s.tree, s.node);
    }
  }

  /** Every counter of the report is the number of the nodes of all trees that it counts. */
  lemma CountersAreCounts(m: Measure, trees: seq<Source>, sites: set<Site>)
    requires IsAll(m, trees, sites)
    ensures Read(m, TreesTally(trees)) == |sites|
  {
    TreesCounted(m, trees);
    AllCountedIsAll(m, trees);
    OnlyOneIsAll(m, trees, sites, AllCounted(m, trees));
  }

  // ------------------------------------------------------------------ the report in numbers

  /** A component is there if there is something to measure, and times that many it is `good`. */
  ghost predicate IsRatio(o: Option<real>, good: int, all: nat) {
    match o case None => all == 0 case Some(x) => all > 0 && x * all as real == good as real
  }

  lemma Divided(part: real, w: real)
    requires w > 0.0
    ensures part / w * w == part
  {
  }

  lemma RestOf(x: real, w: real, part: real)
    requires x * w == part
    ensures (1.0 - x) * w == w - part
  {
  }

  lemma ShareRestored(part: nat, whole: nat)
    requires whole > 0
    ensures IsRatio(Share(part, whole), part, whole)
  {
    Divided(part as real, whole as real);
  }

  lemma RestRestored(part: nat, whole: nat)
    requires whole > 0
    ensures IsRatio(Rest(Share(part, whole)), whole - part, whole)
  {
    ShareRestored(part, whole);
    RestOf(part as real / whole as real, whole as real, part as real);
  }

  /** The three ratios, from the counters. */
  lemma ReportInNumbers(t: Tally)
    ensures var r := ReportOf(t);
      && IsRatio(r.swallowRate, t.handlers - t.swallowed, t.handlers)
      && IsRatio(r.ioWrappedRatio, t.ioWrapped, t.ioSites)
      && IsRatio(r.promiseHandling, t.promiseSites - t.unhandled, t.promiseSites)
  {
    if t.handlers > 0 {
      RestRestored(t.swallowed, t.handlers);
    }
    if t.ioSites > 0 {
      ShareRestored(t.ioWrapped, t.ioSites);
    }
    if t.promiseSites > 0 {
      RestRestored(t.unhandled, t.promiseSites);
    }
  }

  lemma Tripled(sum: real, n: int)
    requires n > 0
    ensures sum / n as real * n as real == sum
  {
  }

  /** The score is the mean of the components that are there. */
  lemma ScoreIsMean(t: Tally)
    ensures var r := ReportOf(t);
      var a, b, c := r.swallowRate, r.ioWrappedRatio, r.promiseHandling;
      match r.score
      case None => a == None && b == None && c == None
      case Some(score) =>
        && (a.Some? || b.Some? || c.Some?)
        && (if a.Some? then score else 0.0) + (if b.Some? then score else 0.0) + (if c.Some? then score else 0.0)
           == (if a.Some? then a.value else 0.0) + (if b.Some? then b.value else 0.0) + (if c.Some? then c.value else 0.0)
  {
    var r := ReportOf(t);
    if r.score.Some? {
      var n := One(r.swallowRate.Some?) + One(r.ioWrappedRatio.Some?) + One(r.promiseHandling.Some?);
      Tripled(Value(r.swallowRate) + Value(r.ioWrappedRatio) + Value(r.promiseHandling), n);
    }
  }

  /** A handler also gets the large-block finding exactly if it is broad and the try block has more
      than 25 rows. */
  lemma LargeTryMeans(root: Tree, clause: Node)
    requires Valid(root, clause)
    ensures LargeTry(root, clause) <==>
              && clause != [] && (At(root, clause).caught == [] || BroadType in At(root, clause).caught)
              && exists body :: IsField(root, Parent(clause), BodyField, body) && Valid(root, body) && At(root, body).rows > 25
  {
    if clause != [] {
      PrefixesAreValid(root, clause);
      var o := ChildBy(root, Parent(clause), BodyField);
      if o.Some? {
        ChildByMeans(root, Parent(clause), BodyField, o.value);
      }
      if body :| IsField(root, Parent(clause), BodyField, body) && Valid(root, body) && At(root, body).rows > 25 {
        ChildByMeans(root, Parent(clause), BodyField, body);
      }
    }
  }
}
