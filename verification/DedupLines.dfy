/** What deduplication merges, said in line numbers, categories and messages. */
module DedupLines {
  import opened Dedup

  // ------------------------------------------------------------------ lines

  /** `f` starts on the line of `anchor`, or below it on one of its lines if those span at most 5. */
  predicate Near(anchor: Finding, f: Finding) {
    || f.startLine == anchor.startLine
    || (anchor.startLine < f.startLine <= anchor.endLine && anchor.endLine - anchor.startLine <= 5)
  }

  /** By line, then by place in the input. */
  predicate Earlier(a: Item, b: Item) {
    a.finding.startLine < b.finding.startLine || (a.finding.startLine == b.finding.startLine && a.index < b.index)
  }

  lemma NearMeans(anchor: Item, m: Item)
    requires anchor == m || Earlier(anchor, m)
    ensures SameLocation(anchor.finding, m.finding) <==> Near(anchor.finding, m.finding)
  {
  }

  /** A group starts with its anchor, and every member is near it. */
  lemma MembersNearAnchor(findings: seq<Finding>, keyOf: Finding -> Key, groups: seq<Group>, k: nat, m: Item)
    requires IsDedup(findings, keyOf, groups) && k < |groups| && m in groups[k]
    ensures m == groups[k][0] || Earlier(groups[k][0], m)
    ensures Near(groups[k][0].finding, m.finding)
    ensures m.index < |findings| && m.finding == findings[m.index]
    ensures keyOf(m.finding) == keyOf(groups[k][0].finding)
  {
    assert GroupOk(findings, keyOf, groups[k]);
    var i :| 0 <= i < |groups[k]| && groups[k][i] == m;
    assert i > 0 ==> Before(groups[k][0], groups[k][i]);
    NearMeans(groups[k][0], m);
  }

  /** No two findings that are merged start more than 5 lines apart. */
  lemma MergedWithinFiveLines(findings: seq<Finding>, keyOf: Finding -> Key, groups: seq<Group>, k: nat, a: Item, b: Item)
    requires IsDedup(findings, keyOf, groups) && k < |groups| && a in groups[k] && b in groups[k]
    ensures -5 <= a.finding.startLine - b.finding.startLine <= 5
  {
    MembersNearAnchor(findings, keyOf, groups, k, a);
    MembersNearAnchor(findings, keyOf, groups, k, b);
  }

  lemma AnchorEarlier(findings: seq<Finding>, keyOf: Finding -> Key, groups: seq<Group>, k: nat, l: nat, m: Item)
    requires IsDedup(findings, keyOf, groups) && k < |groups| && l < |groups| && m in groups[l]
    requires groups[k] != [] && groups[l] != [] && Earlier(groups[k][0], groups[l][0])
    ensures Earlier(groups[k][0], m)
  {
    MembersNearAnchor(findings, keyOf, groups, l, m);
  }

  /** A finding joins no earlier anchor of its bucket exactly because it starts on another line, past
      the anchor's end or where the anchor spans more than 5 lines. */
  lemma FarFromEarlierAnchors(findings: seq<Finding>, keyOf: Finding -> Key, groups: seq<Group>, k: nat, l: nat, m: Item)
    requires IsDedup(findings, keyOf, groups) && k < |groups| && l < |groups| && m in groups[l]
    requires groups[k] != [] && groups[l] != [] && Earlier(groups[k][0], groups[l][0])
    requires keyOf(groups[k][0].finding) == keyOf(m.finding)
    ensures var a := groups[k][0].finding;
      m.finding.startLine > a.startLine && (m.finding.startLine > a.endLine || a.endLine - a.startLine > 5)
  {
    MembersNearAnchor(findings, keyOf, groups, l, m);
    AnchorsApart(findings, keyOf, groups, k, l, m);
    AnchorEarlier(findings, keyOf, groups, k, l, m);
    NearMeans(groups[k][0], m);
  }

  /** No earlier anchor of the same bucket is near `f`. */
  ghost predicate NoneBefore(keyOf: Finding -> Key, groups: seq<Group>, k: nat, f: Finding)
    requires k < |groups| && groups[k] != []
  {
    forall l | 0 <= l < |groups| && groups[l] != [] && Earlier(groups[l][0], groups[k][0]) ::
      keyOf(groups[l][0].finding) == keyOf(f) ==> !Near(groups[l][0].finding, f)
  }

  /** The anchor of group `k` is of the bucket of `m`, does not come after it and is near to it, and no
      earlier anchor of the bucket is. */
  ghost predicate IsFirstNear(keyOf: Finding -> Key, groups: seq<Group>, k: nat, m: Item)
    requires k < |groups| && groups[k] != []
  {
    var a := groups[k][0];
    && keyOf(a.finding) == keyOf(m.finding) && (a == m || Earlier(a, m)) && Near(a.finding, m.finding)
    && NoneBefore(keyOf, groups, k, m.finding)
  }

  lemma GroupNotEmpty(findings: seq<Finding>, keyOf: Finding -> Key, groups: seq<Group>, k: nat)
    requires IsDedup(findings, keyOf, groups) && k < |groups|
    ensures groups[k] != []
  {
    assert GroupOk(findings, keyOf, groups[k]);
  }

  lemma MemberIsFirstNear(findings: seq<Finding>, keyOf: Finding -> Key, groups: seq<Group>, k: nat, m: Item)
    requires IsDedup(findings, keyOf, groups) && k < |groups| && m in groups[k]
    ensures IsFirstNear(keyOf, groups, k, m)
  {
    MembersNearAnchor(findings, keyOf, groups, k, m);
    forall l | 0 <= l < |groups| && groups[l] != [] && Earlier(groups[l][0], groups[k][0])
               && keyOf(groups[l][0].finding) == keyOf(m.finding)
      ensures !Near(groups[l][0].finding, m.finding)
    {
      FarFromEarlierAnchors(findings, keyOf, groups, l, k, m);
    }
  }

  lemma FirstNearIsJoined(findings: seq<Finding>, keyOf: Finding -> Key, groups: seq<Group>, k: nat, m: Item)
    requires IsDedup(findings, keyOf, groups) && k < |groups| && InSome(groups, m) && groups[k] != []
    requires IsFirstNear(keyOf, groups, k, m)
    ensures m in groups[k]
  {
    var j :| 0 <= j < |groups| && m in groups[j];
    if j != k {
      MembersNearAnchor(findings, keyOf, groups, j, m);
      JoinsOther(findings, keyOf, groups, k, j, m);
    }
  }

  /** A finding is in the group of an anchor if and only if the anchor is the first of the finding's
      bucket that does not come after it and is near to it. */
  lemma JoinsFirstNearAnchor(findings: seq<Finding>, keyOf: Finding -> Key, groups: seq<Group>, k: nat, i: nat)
    requires IsDedup(findings, keyOf, groups) && k < |groups| && i < |findings|
    ensures groups[k] != []
    ensures Item(i, findings[i]) in groups[k] <==> IsFirstNear(keyOf, groups, k, Item(i, findings[i]))
  {
    var m := Item(i, findings[i]);
    GroupNotEmpty(findings, keyOf, groups, k);
    if m in groups[k] {
      MemberIsFirstNear(findings, keyOf, groups, k, m);
    }
    assert InSome(groups, m);
    if IsFirstNear(keyOf, groups, k, m) {
      FirstNearIsJoined(findings, keyOf, groups, k, m);
    }
  }

  lemma JoinsOther(findings: seq<Finding>, keyOf: Finding -> Key, groups: seq<Group>, k: nat, j: nat, m: Item)
    requires IsDedup(findings, keyOf, groups) && k < |groups| && j < |groups| && k != j && m in groups[j]
    requires groups[k] != [] && Near(groups[j][0].finding, m.finding)
    requires keyOf(groups[k][0].finding) == keyOf(m.finding) == keyOf(groups[j][0].finding)
    requires groups[k][0] == m || Earlier(groups[k][0], m)
    ensures !Near(groups[k][0].finding, m.finding) || !NoneBefore(keyOf, groups, k, m.finding)
  {
    GroupsSeparate(findings, keyOf, groups, k, j);
    if Apart(groups[k], groups[j]) {
      NearMeans(groups[k][0], m);
    } else {
      assert Earlier(groups[j][0], groups[k][0]);
    }
  }

  /** The merged findings are in the order in which the first member of each appears in the input. */
  lemma OutputFollowsInput(findings: seq<Finding>, keyOf: Finding -> Key, groups: seq<Group>, k: nat, l: nat)
    requires IsDedup(findings, keyOf, groups) && k < l < |groups|
    ensures exists m :: m in groups[k] && forall n | n in groups[l] :: m.index < n.index
  {
    assert GroupOk(findings, keyOf, groups[k]) && GroupOk(findings, keyOf, groups[l]);
    var m :| m in groups[k] && m.index == First(groups[k]);
    FirstIsLeast(groups[l]);
    assert forall n | n in groups[l] :: m.index < n.index;
  }

  // ------------------------------------------------------------------ buckets

  /** With a category, the same category of the same file; an uncategorized finding shares its bucket
      with another exactly if the two spell `analyzer:rule` alike. */
  lemma BucketMeans(a: Finding, b: Finding, normalize: string -> string)
    requires a.category == "" <==> b.category == ""
    ensures KeyOf(normalize)(a) == KeyOf(normalize)(b) <==>
              && normalize(a.path) == normalize(b.path) && a.category == b.category
              && (a.category == "" ==> a.analyzer + ":" + a.rule == b.analyzer + ":" + b.rule)
  {
    var x, y := a.analyzer + ":" + a.rule, b.analyzer + ":" + b.rule;
    assert "rule:" + a.analyzer + ":" + a.rule == "rule:" + x && "rule:" + b.analyzer + ":" + b.rule == "rule:" + y;
    SamePrefix("rule:", x, y);
  }

  lemma SamePrefix(p: string, x: string, y: string)
    ensures p + x == p + y <==> x == y
  {
    assert (p + x)[|p|..] == x && (p + y)[|p|..] == y;
  }

  /** Two uncategorized findings of different rules in one bucket. */
  ghost predicate Mixed(a: Finding, b: Finding, normalize: string -> string) {
    a.category == "" && b.category == "" && KeyOf(normalize)(a) == KeyOf(normalize)(b) && (a.analyzer != b.analyzer || a.rule != b.rule)
  }

  lemma OnlyColon(x: string, y: string, i: nat)
    requires ':' !in x && ':' !in y && i < |x + ":" + y|
    ensures (x + ":" + y)[i] == ':' <==> i == |x|
  {
    if i < |x| {
      assert x[i] in x;
    } else if i > |x| {
      assert (x + ":" + y)[i] == y[i - |x| - 1] && y[i - |x| - 1] in y;
    }
  }

  lemma SplitOnce(x: string, y: string, u: string, v: string)
    requires x + ":" + y == u + ":" + v && ':' !in x && ':' !in y
    ensures x == u && y == v
  {
    var s := x + ":" + y;
    assert s[|u|] == (u + ":" + v)[|u|] == ':';
    OnlyColon(x, y, |u|);
    assert s[..|x|] == x && s[|x| + 1..] == y;
    assert (u + ":" + v)[..|u|] == u && (u + ":" + v)[|u| + 1..] == v;
  }

  lemma SplitAgain(x: string, y: string)
    requires ':' in x || ':' in y
    ensures exists u, v :: u + ":" + v == x + ":" + y && u != x
  {
    if ':' in x {
      var i :| 0 <= i < |x| && x[i] == ':';
      assert x == x[..i] + ":" + x[i + 1..];
      assert x[..i] + ":" + (x[i + 1..] + ":" + y) == x + ":" + y;
    } else {
      var i :| 0 <= i < |y| && y[i] == ':';
      assert y == y[..i] + ":" + y[i + 1..];
      assert (x + ":" + y[..i]) + ":" + y[i + 1..] == x + ":" + y && |x + ":" + y[..i]| > |x|;
    }
  }

  /** Uncategorized findings only ever share a bucket with the same rule, as promised, if and only if
      neither the analyzer nor the rule has a colon in its name. */
  lemma OnlySameRuleExactly(a: Finding, normalize: string -> string)
    requires a.category == ""
    ensures (exists b :: Mixed(a, b, normalize)) <==> ':' in a.analyzer || ':' in a.rule
  {
    if b :| Mixed(a, b, normalize) {
      BucketMeans(a, b, normalize);
      if ':' !in a.analyzer && ':' !in a.rule {
        SplitOnce(a.analyzer, a.rule, b.analyzer, b.rule);
      }
    }
    if ':' in a.analyzer || ':' in a.rule {
      SplitAgain(a.analyzer, a.rule);
      var u, v :| u + ":" + v == a.analyzer + ":" + a.rule && u != a.analyzer;
      var b := a.(analyzer := u, rule := v);
      BucketMeans(a, b, normalize);
      assert Mixed(a, b, normalize);
    }
  }

  // ------------------------------------------------------------------ what is kept

  predicate Graver(a: Severity, b: Severity) {
    match a
    case Critical => b != Critical
    case Error => b == Warning || b == Info
    case Warning => b == Info
    case Info => false
  }

  /** A merged finding is as severe as the most severe of its group. */
  lemma SeverityIsWorst(group: seq<Finding>)
    requires group != []
    ensures exists f :: f in group && f.severity == Merge(group).severity
    ensures forall f | f in group :: !Graver(f.severity, Merge(group).severity)
  {
    MergeMeaning(group);
  }

  predicate IsBlank(s: string) {
    forall i | 0 <= i < |s| :: IsSpace(s[i])
  }

  /** `s` is `core` between blanks. */
  predicate Around(s: string, front: string, core: string, back: string) {
    s == front + core + back && IsBlank(front) && IsBlank(back)
  }

  lemma BlankBefore(c: char, s: string, front: string, core: string, back: string)
    requires Around(s, front, core, back) && IsSpace(c)
    ensures Around([c] + s, [c] + front, core, back)
  {
    assert [c] + s == [c] + front + core + back;
  }

  lemma BlankAfter(c: char, s: string, front: string, core: string, back: string)
    requires Around(s, front, core, back) && IsSpace(c)
    ensures Around(s + [c], front, core, back + [c])
  {
    assert s + [c] == front + core + (back + [c]);
  }

  /** What is left of a message has no space at either end, and only spaces were taken. */
  lemma {:induction false} StrippedMeans(s: string) returns (front: string, back: string)
    ensures Around(s, front, Stripped(s), back)
    ensures Stripped(s) != "" ==> !IsSpace(Stripped(s)[0]) && !IsSpace(Stripped(s)[|Stripped(s)| - 1])
  {
    front, back := "", "";
    if s == "" {
    } else if IsSpace(s[0]) {
      front, back := StrippedMeans(s[1..]);
      BlankBefore(s[0], s[1..], front, Stripped(s[1..]), back);
      assert s == [s[0]] + s[1..];
      front := [s[0]] + front;
    } else if IsSpace(s[|s| - 1]) {
      var n := |s| - 1;
      front, back := StrippedMeans(s[..n]);
      BlankAfter(s[n], s[..n], front, Stripped(s[..n]), back);
      assert s == s[..n] + [s[n]];
      back := back + [s[n]];
    }
  }

  /** `a` says less than `b`: a shorter message; of equally long ones, that of the less severe finding;
      of equally severe ones, that of the finding without a snippet. */
  predicate SaysLess(a: Finding, b: Finding) {
    var la, lb := |Stripped(a.message)|, |Stripped(b.message)|;
    || la < lb
    || (la == lb && Graver(b.severity, a.severity))
    || (la == lb && a.severity == b.severity && a.snippet == "" && b.snippet != "")
  }

  /** The finding that is kept says no less than any other, and more than all before it. */
  lemma KeptSaysMost(group: seq<Finding>) returns (i: nat)
    requires group != []
    ensures i < |group| && Merge(group).id == group[i].id && Merge(group).message == group[i].message
    ensures forall j | 0 <= j < |group| :: !SaysLess(group[i], group[j])
    ensures forall j | 0 <= j < i :: SaysLess(group[j], group[i])
  {
    i := KeeperIsFirst(group);
    KeeperIsRichest(group);
    forall j | 0 <= j < |group|
      ensures SaysLess(group[i], group[j]) <==> Poorer(group[i], group[j])
      ensures SaysLess(group[j], group[i]) <==> Poorer(group[j], group[i])
      ensures !Poorer(group[i], group[j])
    {
      assert group[j] in group;
    }
  }
}
