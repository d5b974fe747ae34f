/** backend/app/services/analyzers/dedup.py: grouping findings by location and merging each group. */
module Dedup {
  import opened Collections
  import opened Sorting

  datatype Severity = Info | Warning | Error | Critical

  /** What a merged finding keeps of the ones merged into it. */
  datatype Evidence = Evidence(analyzer: string, rule: string, severity: Severity, startLine: int, message: string)

  /** A finding object. `id` is the object's identity, which `is` compares. `corroborated` is a
      sorted tuple without repeats in the source, so a set. */
  datatype Finding = Finding(id: nat, analyzer: string, rule: string, severity: Severity, path: string,
                             startLine: int, endLine: int, message: string, snippet: string,
                             category: string, cwes: seq<int>,
                             corroborated: set<string>, mergedFrom: seq<Evidence>)

  const MAX_CONTAINING_SPAN: int := 5

  // ------------------------------------------------------------------ pure helpers

  function Rank(severity: Severity): (r: nat) {
    match severity case Info => 0 case Warning => 1 case Error => 2 case Critical => 3
  }

  /** An empty category counts as none: such findings only merge within their rule. */
  function CategoryOf(f: Finding): string {
    if f.category != "" then f.category else "rule:" + f.analyzer + ":" + f.rule
  }

  datatype Key = Key(path: string, category: string)

  /** The bucket of a finding. `normalize` stands for `normalize_path`. */
  function KeyOf(normalize: string -> string): Finding -> Key {
    (f: Finding) => Key(normalize(f.path), CategoryOf(f))
  }

  predicate Contains(outer: Finding, inner: Finding) {
    outer.endLine - outer.startLine <= MAX_CONTAINING_SPAN && outer.startLine <= inner.startLine <= outer.endLine
  }

  predicate SameLocation(a: Finding, b: Finding) {
    a.startLine == b.startLine || Contains(a, b) || Contains(b, a)
  }

  /** `str.isspace` */
  predicate IsSpace(c: char) {
    var x := c as int;
    || 0x09 <= x <= 0x0D || 0x1C <= x <= 0x20 || x == 0x85 || x == 0xA0 || x == 0x1680
    || 0x2000 <= x <= 0x200A || x == 0x2028 || x == 0x2029 || x == 0x202F || x == 0x205F || x == 0x3000
  }

  function Stripped(s: string): string {
    if s == "" then ""
    else if IsSpace(s[0]) then Stripped(s[1..])
    else if IsSpace(s[|s| - 1]) then Stripped(s[..|s| - 1])
    else s
  }

  /** `_richness(a) < _richness(b)`, compared as Python compares tuples. */
  predicate Poorer(a: Finding, b: Finding) {
    var la, lb := |Stripped(a.message)|, |Stripped(b.message)|;
    la < lb || (la == lb && (Rank(a.severity) < Rank(b.severity) ||
      (Rank(a.severity) == Rank(b.severity) && a.snippet == "" && b.snippet != "")))
  }

  // ------------------------------------------------------------------ merging a group

  /** `max(group, key=_richness)`: the first of the richest. */
  function Keeper(group: seq<Finding>): (k: Finding)
    requires group != []
    ensures k in group
  {
    if |group| == 1 then group[0] else
      var best, last := Keeper(group[..|group| - 1]), group[|group| - 1];
      if Poorer(best, last) then last else best
  }

  function Others(group: seq<Finding>, keeper: Finding): seq<Finding> {
    if group == [] then [] else
      Others(group[..|group| - 1], keeper) + if group[|group| - 1].id != keeper.id then [group[|group| - 1]] else []
  }

  function WorstSeverity(group: seq<Finding>): Severity
    requires group != []
  {
    if |group| == 1 then group[0].severity else
      var worst, last := WorstSeverity(group[..|group| - 1]), group[|group| - 1].severity;
      if Rank(worst) < Rank(last) then last else worst
  }

  /** `tuple(dict.fromkeys(...))`: every CWE once, in order of first appearance. */
  function AllCwes(group: seq<Finding>): seq<int> {
    if group == [] then [] else Fresh(AllCwes(group[..|group| - 1]), group[|group| - 1].cwes)
  }

  function Fresh(known: seq<int>, more: seq<int>): seq<int>
    decreases |more|
  {
    if more == [] then known
    else Fresh(if more[0] in known then known else known + [more[0]], more[1..])
  }

  function EvidenceOf(f: Finding): Evidence {
    Evidence(f.analyzer, f.rule, f.severity, f.startLine, f.message)
  }

  function AllEvidence(others: seq<Finding>): (r: seq<Evidence>)
    ensures |r| == |others|
  {
    seq(|others|, i requires 0 <= i < |others| => EvidenceOf(others[i]))
  }

  function Merge(group: seq<Finding>): Finding
    requires group != []
  {
    var keeper := Keeper(group);
    if |group| == 1 then keeper else
      var others := Others(group, keeper);
      keeper.(severity := WorstSeverity(group),
              cwes := AllCwes(group),
              corroborated := keeper.corroborated + ((set f | f in others :: f.analyzer) - {keeper.analyzer}),
              mergedFrom := keeper.mergedFrom + AllEvidence(others))
  }

  lemma {:induction false} KeeperIsRichest(group: seq<Finding>)
    requires group != []
    ensures forall f | f in group :: !Poorer(Keeper(group), f)
  {
    if |group| > 1 {
      var front, last := group[..|group| - 1], group[|group| - 1];
      KeeperIsRichest(front);
      assert group == front + [last];
    }
  }

  lemma {:induction false} OthersMembers(group: seq<Finding>, keeper: Finding)
    ensures forall f :: f in Others(group, keeper) <==> f in group && f.id != keeper.id
    ensures |Others(group, keeper)| <= |group|
  {
    if group != [] {
      var front, last := group[..|group| - 1], group[|group| - 1];
      OthersMembers(front, keeper);
      assert group == front + [last];
    }
  }

  lemma {:induction false} WorstIsWorst(group: seq<Finding>)
    requires group != []
    ensures exists f :: f in group && f.severity == WorstSeverity(group)
    ensures forall f | f in group :: Rank(f.severity) <= Rank(WorstSeverity(group))
  {
    assert group[0] in group;
    if |group| > 1 {
      var front, last := group[..|group| - 1], group[|group| - 1];
      WorstIsWorst(front);
      assert group == front + [last];
      var f :| f in front && f.severity == WorstSeverity(front);
      assert f in group && last in group;
    }
  }

  /** What a merged finding says: the richest member's words at the group's worst severity, with the
      other analyzers that agree and never its own. */
  lemma MergeMeaning(group: seq<Finding>)
    requires group != []
    ensures var m := Merge(group);
      && (exists k :: k in group && m.id == k.id && m.message == k.message && m.startLine == k.startLine
            && m.endLine == k.endLine && m.snippet == k.snippet
            && m.path == k.path && m.category == k.category && m.analyzer == k.analyzer && m.rule == k.rule
            && (forall f | f in group :: !Poorer(k, f))
            && forall a :: a in m.corroborated <==>
                 a in k.corroborated || (a != k.analyzer && exists f :: f in group && f.id != k.id && f.analyzer == a))
      && (forall f | f in group :: Rank(f.severity) <= Rank(m.severity))
      && (exists f :: f in group && f.severity == m.severity)
  {
    var keeper := Keeper(group);
    KeeperIsRichest(group);
    WorstIsWorst(group);
    OthersMembers(group, keeper);
    if |group| == 1 {
      assert group == [keeper];
    }
  }

  /** Strictly increasing positions: exactly those of the members other than the object `id`. */
  ghost predicate OtherPlaces(group: seq<Finding>, id: nat, places: seq<nat>) {
    && (forall i, j | 0 <= i < j < |places| :: places[i] < places[j])
    && (forall i | 0 <= i < |places| :: places[i] < |group| && group[places[i]].id != id)
    && (forall p: nat | p < |group| && group[p].id != id :: p in places)
  }

  ghost predicate ReadAt(members: seq<Finding>, group: seq<Finding>, places: seq<nat>) {
    |members| == |places| && forall i | 0 <= i < |places| :: places[i] < |group| && members[i] == group[places[i]]
  }

  lemma PlacesExtend(front: seq<Finding>, last: Finding, id: nat, places: seq<nat>)
    requires OtherPlaces(front, id, places)
    ensures OtherPlaces(front + [last], id, if last.id != id then places + [|front|] else places)
  {
    var group, more := front + [last], if last.id != id then places + [|front|] else places;
    forall p: nat | p < |group| && group[p].id != id
      ensures p in more
    {
      if p < |front| {
        assert front[p].id != id && p in places;
      } else {
        assert more[|places|] == p;
      }
    }
    assert forall i | 0 <= i < |places| :: more[i] == places[i] && group[places[i]] == front[places[i]];
  }

  lemma ReadExtends(members: seq<Finding>, front: seq<Finding>, last: Finding, places: seq<nat>)
    requires ReadAt(members, front, places)
    ensures ReadAt(members, front + [last], places) && ReadAt(members + [last], front + [last], places + [|front|])
  {
  }

  lemma {:induction false} OthersInOrder(group: seq<Finding>, keeper: Finding) returns (places: seq<nat>)
    ensures OtherPlaces(group, keeper.id, places) && ReadAt(Others(group, keeper), group, places)
  {
    places := [];
    if group != [] {
      var front, last := group[..|group| - 1], group[|group| - 1];
      places := OthersInOrder(front, keeper);
      assert group == front + [last];
      PlacesExtend(front, last, keeper.id, places);
      ReadExtends(Others(front, keeper), front, last, places);
      if last.id != keeper.id {
        places := places + [|front|];
      } else {
        assert Others(group, keeper) == Others(front, keeper);
      }
    }
  }

  /** Starting from none, a merged finding lists the evidence of exactly the members that are not the
      kept object, in the order of the group. */
  lemma EvidenceListed(group: seq<Finding>) returns (places: seq<nat>)
    requires group != [] && forall f | f in group :: f.mergedFrom == []
    ensures OtherPlaces(group, Merge(group).id, places) && |Merge(group).mergedFrom| == |places|
    ensures forall i | 0 <= i < |places| ::
              var e, f := Merge(group).mergedFrom[i], group[places[i]];
              && e.analyzer == f.analyzer && e.rule == f.rule && e.severity == f.severity
              && e.startLine == f.startLine && e.message == f.message
  {
    var keeper := Keeper(group);
    places := OthersInOrder(group, keeper);
    assert keeper.mergedFrom == [];
    if |group| == 1 {
      assert group[0] == keeper && Others(group[..0], keeper) == [];
    } else {
      assert Merge(group).mergedFrom == AllEvidence(Others(group, keeper));
    }
  }

  /** Of equally rich members the first is kept. */
  lemma {:induction false} KeeperIsFirst(group: seq<Finding>) returns (i: nat)
    requires group != []
    ensures i < |group| && group[i] == Keeper(group) && forall j | 0 <= j < i :: Poorer(group[j], group[i])
  {
    if |group| == 1 {
      i := 0;
    } else {
      var front, last := group[..|group| - 1], group[|group| - 1];
      i := KeeperIsFirst(front);
      if Poorer(Keeper(front), last) {
        KeeperIsRichest(front);
        forall j | 0 <= j < |front|
          ensures Poorer(group[j], last)
        {
          assert front[j] in front && !Poorer(Keeper(front), front[j]);
        }
        i := |front|;
      }
    }
  }

  ghost predicate NoRepeated(s: seq<int>) {
    forall i, j | 0 <= i < j < |s| :: s[i] != s[j]
  }

  lemma {:induction false} FreshMembers(known: seq<int>, more: seq<int>)
    requires NoRepeated(known)
    ensures NoRepeated(Fresh(known, more))
    ensures forall c :: c in Fresh(known, more) <==> c in known || c in more
    decreases |more|
  {
    if more != [] {
      FreshMembers(if more[0] in known then known else known + [more[0]], more[1..]);
      assert more == [more[0]] + more[1..];
    }
  }

  /** A merge of several findings has every CWE of every member, and each once. */
  lemma {:induction false} CwesUnited(group: seq<Finding>)
    ensures NoRepeated(AllCwes(group))
    ensures forall c :: c in AllCwes(group) <==> exists f :: f in group && c in f.cwes
    ensures |group| > 1 ==> Merge(group).cwes == AllCwes(group)
  {
    if group != [] {
      var front, last := group[..|group| - 1], group[|group| - 1];
      CwesUnited(front);
      FreshMembers(AllCwes(front), last.cwes);
      assert group == front + [last];
    }
  }

  /** How often an object is listed in a group. */
  function Copies(group: seq<Finding>, f: Finding): nat {
    if group == [] then 0 else Copies(group[..|group| - 1], f) + if group[|group| - 1].id == f.id then 1 else 0
  }

  lemma {:induction false} OthersCount(group: seq<Finding>, keeper: Finding)
    ensures |Others(group, keeper)| + Copies(group, keeper) == |group|
  {
    if group != [] {
      OthersCount(group[..|group| - 1], keeper);
    }
  }

  lemma {:induction false} KeeperIsListed(group: seq<Finding>, f: Finding)
    requires f in group
    ensures Copies(group, f) >= 1
  {
    var front, last := group[..|group| - 1], group[|group| - 1];
    assert group == front + [last];
    if f in front {
      KeeperIsListed(front, f);
    }
  }

  /** One merged finding accounts for its whole group, less repeated listings of the kept object. */
  lemma MergeAccounts(group: seq<Finding>)
    requires group != [] && forall f | f in group :: f.mergedFrom == []
    ensures 1 + |Merge(group).mergedFrom| == |group| + 1 - Copies(group, Keeper(group))
    ensures Copies(group, Keeper(group)) >= 1
  {
    OthersCount(group, Keeper(group));
    KeeperIsListed(group, Keeper(group));
  }

  // ------------------------------------------------------------------ grouping one bucket

  /** A finding with its place in the input. */
  datatype Item = Item(index: nat, finding: Finding)

  type Group = seq<Item>

  predicate Before(a: Item, b: Item) {
    a.finding.startLine < b.finding.startLine ||
    (a.finding.startLine == b.finding.startLine && a.index < b.index)
  }

  function ByLine(): (Item, Item) -> bool {
    (a: Item, b: Item) => !Before(b, a)
  }

  ghost predicate Ascending(items: seq<Item>) {
    forall i, j | 0 <= i < j < |items| :: Before(items[i], items[j])
  }

  /** In order of start lines, whether an item is co-located with an anchor above it depends on
      nothing but the item's start line. */
  lemma LocationByLine(anchor: Item, item: Item)
    requires anchor.finding.startLine <= item.finding.startLine
    ensures SameLocation(anchor.finding, item.finding) <==>
              anchor.finding.startLine == item.finding.startLine || Contains(anchor.finding, item.finding)
  {
  }

  /** A group: in order, and every member co-located with the first, its anchor. */
  ghost predicate Anchored(g: Group) {
    g != [] && Ascending(g) && forall m | m in g :: SameLocation(g[0].finding, m.finding)
  }

  /** No member of the later group is co-located with the anchor of the earlier one. */
  ghost predicate Apart(earlier: Group, later: Group)
    requires earlier != [] && later != []
  {
    Before(earlier[0], later[0]) && forall m | m in later :: !SameLocation(earlier[0].finding, m.finding)
  }

  ghost predicate InSome(groups: seq<Group>, m: Item) {
    exists k :: 0 <= k < |groups| && m in groups[k]
  }

  /** The groups of a bucket, in order of their anchors. */
  ghost predicate Grouping(items: seq<Item>, groups: seq<Group>) {
    && (forall k | 0 <= k < |groups| :: Anchored(groups[k]) && forall m | m in groups[k] :: m in items)
    && (forall m | m in items :: InSome(groups, m))
    && (forall k, l | 0 <= k < l < |groups| :: Apart(groups[k], groups[l]))
  }

  lemma AppendAscending(items: seq<Item>, g: Group, item: Item)
    requires Ascending(g) && (forall m | m in g :: m in items) && forall m | m in items :: Before(m, item)
    ensures Ascending(g + [item])
  {
    forall i, j | 0 <= i < j < |g + [item]|
      ensures Before((g + [item])[i], (g + [item])[j])
    {
      assert g[i] in g;
    }
  }

  lemma JoinKeepsGrouping(items: seq<Item>, groups: seq<Group>, item: Item, t: nat)
    requires Grouping(items, groups) && forall m | m in items :: Before(m, item)
    requires t < |groups| && SameLocation(groups[t][0].finding, item.finding)
    requires forall k | 0 <= k < t :: !SameLocation(groups[k][0].finding, item.finding)
    ensures Grouping(items + [item], groups[t := groups[t] + [item]])
  {
    var longer := groups[t := groups[t] + [item]];
    forall k | 0 <= k < |longer|
      ensures Anchored(longer[k]) && forall m | m in longer[k] :: m in items + [item]
    {
      assert Anchored(groups[k]);
      if k == t {
        AppendAscending(items, groups[t], item);
        assert longer[t][0] == groups[t][0];
      }
    }
    JoinCovers(items, groups, item, t);
    forall k, l | 0 <= k < l < |longer|
      ensures Apart(longer[k], longer[l])
    {
      assert Anchored(groups[k]) && Anchored(groups[l]) && Apart(groups[k], groups[l]);
      JoinApart(groups[k], longer[k], groups[l], longer[l], item, l == t);
    }
  }

  lemma JoinCovers(items: seq<Item>, groups: seq<Group>, item: Item, t: nat)
    requires t < |groups| && forall m | m in items :: InSome(groups, m)
    ensures forall m | m in items + [item] :: InSome(groups[t := groups[t] + [item]], m)
  {
    var longer := groups[t := groups[t] + [item]];
    forall m | m in items + [item]
      ensures InSome(longer, m)
    {
      if m in items {
        var k :| 0 <= k < |groups| && m in groups[k];
        assert m in longer[k];
      } else {
        assert m in longer[t];
      }
    }
  }

  lemma JoinApart(earlier: Group, earlier': Group, later: Group, later': Group, item: Item, joins: bool)
    requires earlier != [] && later != [] && Apart(earlier, later)
    requires earlier' == earlier || earlier' == earlier + [item]
    requires later' == if joins then later + [item] else later
    requires joins ==> !SameLocation(earlier[0].finding, item.finding)
    ensures Apart(earlier', later')
  {
  }

  lemma OpenKeepsGrouping(items: seq<Item>, groups: seq<Group>, item: Item)
    requires Grouping(items, groups) && forall m | m in items :: Before(m, item)
    requires forall k | 0 <= k < |groups| :: !SameLocation(groups[k][0].finding, item.finding)
    ensures Grouping(items + [item], groups + [[item]])
  {
    var longer := groups + [[item]];
    forall m | m in items + [item]
      ensures InSome(longer, m)
    {
      if m in items {
        var k :| 0 <= k < |groups| && m in groups[k];
        assert m in longer[k];
      } else {
        assert m in longer[|groups|];
      }
    }
    forall k, l | 0 <= k < l < |longer|
      ensures Apart(longer[k], longer[l])
    {
      assert Anchored(groups[k]) && groups[k][0] in groups[k];
      assert l < |groups| ==> Apart(groups[k], groups[l]);
    }
    forall k | 0 <= k < |longer|
      ensures Anchored(longer[k]) && forall m | m in longer[k] :: m in items + [item]
    {
      assert k < |groups| ==> Anchored(groups[k]);
    }
  }

  /** The inner loop of `deduplicate`, on a bucket sorted by start line and input position. */
  method GroupBucket(items: seq<Item>) returns (groups: seq<Group>)
    requires Ascending(items)
    ensures Grouping(items, groups)
  {
    groups := [];
    for i := 0 to |items|
      invariant Grouping(items[..i], groups)
    {
      var item := items[i];
      assert items[..i + 1] == items[..i] + [item];
      var target := 0;
      while target < |groups| && !SameLocation(groups[target][0].finding, item.finding)
        invariant 0 <= target <= |groups|
        invariant forall k | 0 <= k < |groups| :: groups[k] != []
        invariant forall k | 0 <= k < target :: !SameLocation(groups[k][0].finding, item.finding)
      {
        target := target + 1;
      }
      if target == |groups| {
        OpenKeepsGrouping(items[..i], groups, item);
        groups := groups + [[item]];
      } else {
        JoinKeepsGrouping(items[..i], groups, item, target);
        groups := groups[target := groups[target] + [item]];
      }
    }
    assert items[..|items|] == items;
  }

  /** Members of different groups never start on the same line, and are never the same item. */
  lemma ApartMembers(earlier: Group, later: Group, a: Item, b: Item)
    requires Anchored(earlier) && Anchored(later) && Apart(earlier, later)
    requires a in earlier && b in later
    ensures a.finding.startLine != b.finding.startLine
  {
    var anchor := earlier[0];
    var i :| 0 <= i < |earlier| && earlier[i] == a;
    var j :| 0 <= j < |later| && later[j] == b;
    assert i > 0 ==> Before(anchor, a);
    assert j > 0 ==> Before(later[0], b);
    LocationByLine(anchor, a);
    LocationByLine(anchor, b);
  }

  // ------------------------------------------------------------------ all buckets

  function FindingsOf(g: Group): (r: seq<Finding>)
    ensures |r| == |g| && forall i | 0 <= i < |g| :: r[i] == g[i].finding
  {
    seq(|g|, i requires 0 <= i < |g| => g[i].finding)
  }

  /** `min(i for i, _ in group)` */
  function First(g: Group): (r: nat)
    requires g != []
    ensures exists m :: m in g && m.index == r
  {
    if |g| == 1 then assert g[0] in g; g[0].index else
      var first, last := First(g[..|g| - 1]), g[|g| - 1];
      assert last in g && forall m | m in g[..|g| - 1] :: m in g;
      if last.index < first then last.index else first
  }

  lemma {:induction false} FirstIsLeast(g: Group)
    requires g != []
    ensures forall m | m in g :: First(g) <= m.index
  {
    if |g| > 1 {
      FirstIsLeast(g[..|g| - 1]);
      assert g == g[..|g| - 1] + [g[|g| - 1]];
    }
  }

  /** A group of the input: anchored, of one file and category, its items at their input positions. */
  ghost predicate GroupOk(findings: seq<Finding>, keyOf: Finding -> Key, g: Group) {
    && Anchored(g)
    && forall m | m in g ::
         && m.index < |findings| && m.finding == findings[m.index]
         && keyOf(m.finding) == keyOf(g[0].finding)
  }

  ghost predicate Separate(keyOf: Finding -> Key, g: Group, h: Group)
    requires g != [] && h != []
  {
    keyOf(g[0].finding) != keyOf(h[0].finding) || Apart(g, h) || Apart(h, g)
  }

  /** The grouping `deduplicate` promises: every finding is in a group, groups are pairwise separate,
      and they are listed by their first input position. */
  ghost predicate IsDedup(findings: seq<Finding>, keyOf: Finding -> Key, groups: seq<Group>) {
    && (forall k | 0 <= k < |groups| :: GroupOk(findings, keyOf, groups[k]))
    && (forall i | 0 <= i < |findings| :: InSome(groups, Item(i, findings[i])))
    && (forall k, l | 0 <= k < l < |groups| ::
          Separate(keyOf, groups[k], groups[l]) && First(groups[k]) < First(groups[l]))
  }

  function BucketItems(findings: seq<Finding>, keyOf: Finding -> Key, key: Key): (r: seq<Item>)
    ensures forall m | m in r ::
              m.index < |findings| && m.finding == findings[m.index] && keyOf(m.finding) == key
  {
    if findings == [] then [] else
      var n := |findings| - 1;
      BucketItems(findings[..n], keyOf, key) +
      if keyOf(findings[n]) == key then [Item(n, findings[n])] else []
  }

  lemma {:induction false} BucketComplete(findings: seq<Finding>, keyOf: Finding -> Key, key: Key)
    ensures Distinct(BucketItems(findings, keyOf, key))
    ensures forall i | 0 <= i < |findings| && keyOf(findings[i]) == key ::
              Item(i, findings[i]) in BucketItems(findings, keyOf, key)
  {
    if findings != [] {
      BucketComplete(findings[..|findings| - 1], keyOf, key);
    }
  }

  lemma BucketExtends(findings: seq<Finding>, f: Finding, keyOf: Finding -> Key, key: Key)
    ensures BucketItems(findings + [f], keyOf, key) ==
              BucketItems(findings, keyOf, key) + if keyOf(f) == key then [Item(|findings|, f)] else []
  {
    assert (findings + [f])[..|findings|] == findings;
  }

  ghost predicate Filled(findings: seq<Finding>, keyOf: Finding -> Key, order: seq<Key>, buckets: map<Key, seq<Item>>) {
    && Distinct(order)
    && (forall key :: key in order <==> key in buckets)
    && (forall key :: BucketIn(buckets, key) == BucketItems(findings, keyOf, key))
  }

  lemma FillStep(findings: seq<Finding>, f: Finding, keyOf: Finding -> Key, order: seq<Key>, buckets: map<Key, seq<Item>>)
    requires Filled(findings, keyOf, order, buckets)
    ensures Filled(findings + [f], keyOf, if keyOf(f) in buckets then order else order + [keyOf(f)],
                   buckets[keyOf(f) := BucketIn(buckets, keyOf(f)) + [Item(|findings|, f)]])
  {
    var key := keyOf(f);
    var buckets' := buckets[key := BucketIn(buckets, key) + [Item(|findings|, f)]];
    forall k: Key
      ensures BucketIn(buckets', k) == BucketItems(findings + [f], keyOf, k)
    {
      BucketExtends(findings, f, keyOf, k);
      assert BucketIn(buckets, k) == BucketItems(findings, keyOf, k);
    }
  }

  /** One turn of the first loop. */
  method FillOne(ghost findings: seq<Finding>, i: nat, f: Finding, keyOf: Finding -> Key,
                 order0: seq<Key>, buckets0: map<Key, seq<Item>>)
    returns (order: seq<Key>, buckets: map<Key, seq<Item>>)
    requires Filled(findings, keyOf, order0, buckets0) && i == |findings|
    ensures Filled(findings + [f], keyOf, order, buckets)
  {
    FillStep(findings, f, keyOf, order0, buckets0);
    var key := keyOf(f);
    order, buckets := if key in buckets0 then order0 else order0 + [key],
                      buckets0[key := BucketIn(buckets0, key) + [Item(i, f)]];
  }

  /** The first loop: an insertion-ordered dictionary of the buckets. */
  method FillBuckets(findings: seq<Finding>, keyOf: Finding -> Key) returns (order: seq<Key>, buckets: map<Key, seq<Item>>)
    ensures Filled(findings, keyOf, order, buckets)
  {
    order, buckets := [], map[];
    var i := 0;
    while i < |findings|
      invariant 0 <= i <= |findings|
      invariant Filled(findings[..i], keyOf, order, buckets)
    {
      NextPrefix(findings, i);
      order, buckets := FillOne(findings[..i], i, findings[i], keyOf, order, buckets);
      i := i + 1;
    }
    assert findings[..i] == findings;
  }

  lemma FilledHasAll(findings: seq<Finding>, keyOf: Finding -> Key, order: seq<Key>, buckets: map<Key, seq<Item>>, i: nat)
    requires Filled(findings, keyOf, order, buckets) && i < |findings|
    ensures keyOf(findings[i]) in order
  {
    BucketComplete(findings, keyOf, keyOf(findings[i]));
    assert BucketIn(buckets, keyOf(findings[i])) == BucketItems(findings, keyOf, keyOf(findings[i]));
  }

  /** Sorting a bucket by start line and position puts it in strict order. */
  lemma SortedBucket(items: seq<Item>, findings: seq<Finding>)
    requires Distinct(items) && forall m | m in items :: m.index < |findings| && m.finding == findings[m.index]
    ensures Ascending(Sorted(ByLine(), items))
    ensures forall m :: m in Sorted(ByLine(), items) <==> m in items
  {
    var sorted := Sorted(ByLine(), items);
    SortedMembers(ByLine(), items);
    SortedIsSorted(ByLine(), items);
    SortedDistinct(ByLine(), items);
    forall m
      ensures m in sorted <==> m in items
    {
      SameMembers(sorted, items, m);
    }
    forall i, j | 0 <= i < j < |sorted|
      ensures Before(sorted[i], sorted[j])
    {
      assert sorted[i] in items && sorted[j] in items && ByLine()(sorted[i], sorted[j]);
    }
  }

  datatype Entry = Entry(first: nat, merged: Finding, group: Group)

  function ByFirst(): (Entry, Entry) -> bool {
    (a: Entry, b: Entry) => a.first <= b.first
  }

  ghost predicate EntryOk(findings: seq<Finding>, keyOf: Finding -> Key, e: Entry) {
    && GroupOk(findings, keyOf, e.group)
    && e.first == First(e.group) && e.merged == Merge(FindingsOf(e.group))
  }

  ghost predicate EntryIn(findings: seq<Finding>, keyOf: Finding -> Key, keys: seq<Key>, e: Entry) {
    EntryOk(findings, keyOf, e) && e.group != [] && keyOf(e.group[0].finding) in keys
  }

  ghost predicate Listed(entries: seq<Entry>, m: Item) {
    exists e :: e in entries && m in e.group
  }

  /** The unordered list of merged findings once the buckets `keys` are done. */
  ghost predicate Collected(findings: seq<Finding>, keyOf: Finding -> Key, keys: seq<Key>, entries: seq<Entry>) {
    && (forall e | e in entries :: EntryIn(findings, keyOf, keys, e))
    && (forall i | 0 <= i < |findings| && keyOf(findings[i]) in keys :: Listed(entries, Item(i, findings[i])))
    && (forall k, l | 0 <= k < l < |entries| :: SeparateEntries(keyOf, entries[k], entries[l]))
  }

  ghost predicate SeparateEntries(keyOf: Finding -> Key, a: Entry, b: Entry) {
    a.group != [] && b.group != [] && Separate(keyOf, a.group, b.group)
  }

  function EntriesFor(groups: seq<Group>): (r: seq<Entry>)
    requires forall k | 0 <= k < |groups| :: groups[k] != []
    ensures |r| == |groups|
    ensures forall k | 0 <= k < |r| :: r[k] == Entry(First(groups[k]), Merge(FindingsOf(groups[k])), groups[k])
  {
    seq(|groups|, k requires 0 <= k < |groups| => Entry(First(groups[k]), Merge(FindingsOf(groups[k])), groups[k]))
  }

  lemma BucketGroupsOk(findings: seq<Finding>, keyOf: Finding -> Key, key: Key, items: seq<Item>, groups: seq<Group>)
    requires Grouping(items, groups)
    requires forall m | m in items :: m in BucketItems(findings, keyOf, key)
    ensures forall k | 0 <= k < |groups| ::
              GroupOk(findings, keyOf, groups[k]) && keyOf(groups[k][0].finding) == key
  {
    forall k | 0 <= k < |groups|
      ensures GroupOk(findings, keyOf, groups[k]) && keyOf(groups[k][0].finding) == key
    {
      assert Anchored(groups[k]) && groups[k][0] in groups[k];
    }
  }

  lemma SeparateMore(keyOf: Finding -> Key, keys: seq<Key>, key: Key, entries: seq<Entry>, groups: seq<Group>, k: nat, l: nat)
    requires forall k | 0 <= k < |entries| :: entries[k].group != [] && keyOf(entries[k].group[0].finding) in keys
    requires forall k | 0 <= k < |groups| :: groups[k] != [] && keyOf(groups[k][0].finding) == key
    requires key !in keys
    requires forall k, l | 0 <= k < l < |entries| :: SeparateEntries(keyOf, entries[k], entries[l])
    requires forall k, l | 0 <= k < l < |groups| :: Apart(groups[k], groups[l])
    requires k < l < |entries| + |groups|
    ensures var g := if k < |entries| then entries[k].group else groups[k - |entries|];
      var h := if l < |entries| then entries[l].group else groups[l - |entries|];
      g != [] && h != [] && Separate(keyOf, g, h)
  {
  }

  lemma ListedMore(entries: seq<Entry>, groups: seq<Group>, m: Item)
    requires forall k | 0 <= k < |groups| :: groups[k] != []
    requires Listed(entries, m) || InSome(groups, m)
    ensures Listed(entries + EntriesFor(groups), m)
  {
    if e :| e in entries && m in e.group {
      assert e in entries + EntriesFor(groups);
    } else {
      var k :| 0 <= k < |groups| && m in groups[k];
      assert EntriesFor(groups)[k] in entries + EntriesFor(groups);
    }
  }

  lemma EntriesMore(findings: seq<Finding>, keyOf: Finding -> Key, keys: seq<Key>, key: Key, entries: seq<Entry>, groups: seq<Group>)
    requires forall e | e in entries :: EntryIn(findings, keyOf, keys, e)
    requires forall k | 0 <= k < |groups| ::
               GroupOk(findings, keyOf, groups[k]) && groups[k] != [] && keyOf(groups[k][0].finding) == key
    ensures forall e | e in entries + EntriesFor(groups) :: EntryIn(findings, keyOf, keys + [key], e)
  {
    forall e | e in entries + EntriesFor(groups)
      ensures EntryIn(findings, keyOf, keys + [key], e)
    {
      if e in entries {
        assert EntryIn(findings, keyOf, keys, e);
      }
    }
  }

  lemma AllListedMore(findings: seq<Finding>, keyOf: Finding -> Key, keys: seq<Key>, key: Key,
                      items: seq<Item>, entries: seq<Entry>, groups: seq<Group>)
    requires forall i | 0 <= i < |findings| && keyOf(findings[i]) in keys :: Listed(entries, Item(i, findings[i]))
    requires forall m :: m in items <==> m in BucketItems(findings, keyOf, key)
    requires Grouping(items, groups)
    ensures forall i | 0 <= i < |findings| && keyOf(findings[i]) in keys + [key] ::
              Listed(entries + EntriesFor(groups), Item(i, findings[i]))
  {
    BucketComplete(findings, keyOf, key);
    forall i | 0 <= i < |findings| && keyOf(findings[i]) in keys + [key]
      ensures Listed(entries + EntriesFor(groups), Item(i, findings[i]))
    {
      ListedMore(entries, groups, Item(i, findings[i]));
    }
  }

  lemma AllSeparateMore(keyOf: Finding -> Key, keys: seq<Key>, key: Key, entries: seq<Entry>, groups: seq<Group>)
    requires forall k | 0 <= k < |entries| :: entries[k].group != [] && keyOf(entries[k].group[0].finding) in keys
    requires forall k | 0 <= k < |groups| :: groups[k] != [] && keyOf(groups[k][0].finding) == key
    requires key !in keys
    requires forall k, l | 0 <= k < l < |entries| :: SeparateEntries(keyOf, entries[k], entries[l])
    requires forall k, l | 0 <= k < l < |groups| :: Apart(groups[k], groups[l])
    ensures var more := entries + EntriesFor(groups);
      forall k, l | 0 <= k < l < |more| :: SeparateEntries(keyOf, more[k], more[l])
  {
    var more := entries + EntriesFor(groups);
    forall k, l | 0 <= k < l < |more|
      ensures SeparateEntries(keyOf, more[k], more[l])
    {
      SeparateMore(keyOf, keys, key, entries, groups, k, l);
    }
  }

  lemma CollectStep(findings: seq<Finding>, keyOf: Finding -> Key, keys: seq<Key>, key: Key,
                    items: seq<Item>, entries: seq<Entry>, groups: seq<Group>)
    requires Collected(findings, keyOf, keys, entries) && key !in keys
    requires forall m :: m in items <==> m in BucketItems(findings, keyOf, key)
    requires Grouping(items, groups)
    ensures forall k | 0 <= k < |groups| :: groups[k] != []
    ensures Collected(findings, keyOf, keys + [key], entries + EntriesFor(groups))
  {
    BucketGroupsOk(findings, keyOf, key, items, groups);
    forall k | 0 <= k < |entries|
      ensures entries[k].group != [] && keyOf(entries[k].group[0].finding) in keys
    {
      assert entries[k] in entries;
    }
    EntriesMore(findings, keyOf, keys, key, entries, groups);
    AllListedMore(findings, keyOf, keys, key, items, entries, groups);
    AllSeparateMore(keyOf, keys, key, entries, groups);
  }

  /** The second loop: each bucket sorted and grouped, its merged findings listed. */
  method CollectBuckets(findings: seq<Finding>, keyOf: Finding -> Key, order: seq<Key>, buckets: map<Key, seq<Item>>)
    returns (entries: seq<Entry>)
    requires Filled(findings, keyOf, order, buckets)
    ensures Collected(findings, keyOf, order, entries)
  {
    entries := [];
    for b := 0 to |order|
      invariant Collected(findings, keyOf, order[..b], entries)
    {
      assert order[b] in order && order[..b + 1] == order[..b] + [order[b]];
      var items := buckets[order[b]];
      BucketComplete(findings, keyOf, order[b]);
      SortedBucket(items, findings);
      var groups := GroupBucket(Sorted(ByLine(), items));
      CollectStep(findings, keyOf, order[..b], order[b], Sorted(ByLine(), items), entries, groups);
      entries := entries + EntriesFor(groups);
    }
    assert order[..|order|] == order;
  }

  function GroupsIn(entries: seq<Entry>): (r: seq<Group>)
    ensures |r| == |entries| && forall k | 0 <= k < |entries| :: r[k] == entries[k].group
  {
    seq(|entries|, k requires 0 <= k < |entries| => entries[k].group)
  }

  function MergedIn(entries: seq<Entry>): (r: seq<Finding>)
    ensures |r| == |entries| && forall k | 0 <= k < |entries| :: r[k] == entries[k].merged
  {
    seq(|entries|, k requires 0 <= k < |entries| => entries[k].merged)
  }

  /** Different groups share no item. */
  lemma SeparateDisjoint(findings: seq<Finding>, keyOf: Finding -> Key, g: Group, h: Group, a: Item, b: Item)
    requires GroupOk(findings, keyOf, g) && GroupOk(findings, keyOf, h) && Separate(keyOf, g, h)
    requires a in g && b in h && keyOf(a.finding) == keyOf(b.finding)
    ensures a.finding.startLine != b.finding.startLine && a.index != b.index
  {
    if Apart(g, h) {
      ApartMembers(g, h, a, b);
    } else {
      ApartMembers(h, g, b, a);
    }
  }

  lemma FirstsDiffer(findings: seq<Finding>, keyOf: Finding -> Key, g: Group, h: Group)
    requires GroupOk(findings, keyOf, g) && GroupOk(findings, keyOf, h) && Separate(keyOf, g, h)
    ensures First(g) != First(h)
  {
    var a :| a in g && a.index == First(g);
    var b :| b in h && b.index == First(h);
    if keyOf(a.finding) == keyOf(b.finding) {
      SeparateDisjoint(findings, keyOf, g, h, a, b);
    }
  }

  lemma SeparateSymmetric(keyOf: Finding -> Key, g: Group, h: Group)
    requires g != [] && h != [] && Separate(keyOf, g, h)
    ensures Separate(keyOf, h, g)
  {
  }

  lemma EntriesDistinct(findings: seq<Finding>, keyOf: Finding -> Key, keys: seq<Key>, entries: seq<Entry>)
    requires Collected(findings, keyOf, keys, entries)
    ensures Distinct(entries)
  {
    forall k, l | 0 <= k < l < |entries|
      ensures entries[k] != entries[l]
    {
      assert entries[k] in entries && entries[l] in entries;
      assert Separate(keyOf, entries[k].group, entries[l].group);
      FirstsDiffer(findings, keyOf, entries[k].group, entries[l].group);
    }
  }

  lemma SortedArrangement(entries: seq<Entry>) returns (sorted: seq<Entry>)
    requires Distinct(entries)
    ensures sorted == Sorted(ByFirst(), entries) && Distinct(sorted)
    ensures forall e :: e in sorted <==> e in entries
    ensures forall k, l | 0 <= k < l < |sorted| :: sorted[k].first <= sorted[l].first
  {
    sorted := Sorted(ByFirst(), entries);
    SortedMembers(ByFirst(), entries);
    SortedIsSorted(ByFirst(), entries);
    SortedDistinct(ByFirst(), entries);
    forall e
      ensures e in sorted <==> e in entries
    {
      SameMembers(sorted, entries, e);
    }
    forall k, l | 0 <= k < l < |sorted|
      ensures sorted[k].first <= sorted[l].first
    {
      assert ByFirst()(sorted[k], sorted[l]);
    }
  }

  lemma ListedIsInSome(sorted: seq<Entry>, m: Item)
    requires Listed(sorted, m)
    ensures InSome(GroupsIn(sorted), m)
  {
    var e :| e in sorted && m in e.group;
    var k :| 0 <= k < |sorted| && sorted[k] == e;
    assert m in GroupsIn(sorted)[k];
  }

  /** Sorting the merged findings by their first input position keeps the grouping and orders it. */
  lemma SortedEntries(findings: seq<Finding>, keyOf: Finding -> Key, keys: seq<Key>, entries: seq<Entry>)
    returns (sorted: seq<Entry>)
    requires Collected(findings, keyOf, keys, entries)
    requires forall i | 0 <= i < |findings| :: keyOf(findings[i]) in keys
    ensures sorted == Sorted(ByFirst(), entries) && IsDedup(findings, keyOf, GroupsIn(sorted))
    ensures forall k | 0 <= k < |sorted| :: EntryOk(findings, keyOf, sorted[k])
  {
    EntriesDistinct(findings, keyOf, keys, entries);
    sorted := SortedArrangement(entries);
    var groups := GroupsIn(sorted);
    forall k | 0 <= k < |sorted|
      ensures EntryOk(findings, keyOf, sorted[k])
    {
      assert sorted[k] in entries;
    }
    forall i | 0 <= i < |findings|
      ensures InSome(groups, Item(i, findings[i]))
    {
      assert Listed(entries, Item(i, findings[i]));
      ListedIsInSome(sorted, Item(i, findings[i]));
    }
    forall k, l | 0 <= k < l < |sorted|
      ensures groups[k] != [] && groups[l] != []
      ensures Separate(keyOf, groups[k], groups[l]) && First(groups[k]) < First(groups[l])
    {
      assert sorted[k] in entries && sorted[l] in entries;
      EntriesSeparate(findings, keyOf, keys, entries, sorted[k], sorted[l]);
      FirstsDiffer(findings, keyOf, sorted[k].group, sorted[l].group);
    }
  }

  lemma SeparateAt(findings: seq<Finding>, keyOf: Finding -> Key, keys: seq<Key>, entries: seq<Entry>, k: nat, l: nat)
    requires Collected(findings, keyOf, keys, entries) && k < l < |entries|
    ensures SeparateEntries(keyOf, entries[k], entries[l])
  {
  }

  lemma EntriesSeparate(findings: seq<Finding>, keyOf: Finding -> Key, keys: seq<Key>, entries: seq<Entry>, d: Entry, e: Entry)
    requires Collected(findings, keyOf, keys, entries) && d in entries && e in entries && d != e
    ensures d.group != [] && e.group != [] && Separate(keyOf, d.group, e.group)
  {
    var k :| 0 <= k < |entries| && entries[k] == d;
    var l :| 0 <= l < |entries| && entries[l] == e;
    if k < l {
      SeparateAt(findings, keyOf, keys, entries, k, l);
    } else {
      SeparateAt(findings, keyOf, keys, entries, l, k);
      SeparateSymmetric(keyOf, e.group, d.group);
    }
  }

  /** The merged findings are the merges of these groups. */
  ghost predicate AreMerges(groups: seq<Group>, merged: seq<Finding>) {
    |merged| == |groups| && forall k | 0 <= k < |groups| :: groups[k] != [] && merged[k] == Merge(FindingsOf(groups[k]))
  }

  ghost predicate IsDeduplicated(findings: seq<Finding>, keyOf: Finding -> Key, merged: seq<Finding>) {
    exists groups :: IsDedup(findings, keyOf, groups) && AreMerges(groups, merged)
  }

  /** `deduplicate`: the merged findings are the merges of a grouping as promised. */
  method Deduplicate(findings: seq<Finding>, normalize: string -> string) returns (merged: seq<Finding>)
    ensures IsDeduplicated(findings, KeyOf(normalize), merged)
  {
    var order, buckets := FillBuckets(findings, KeyOf(normalize));
    var entries := CollectBuckets(findings, KeyOf(normalize), order, buckets);
    forall i | 0 <= i < |findings|
      ensures KeyOf(normalize)(findings[i]) in order
    {
      FilledHasAll(findings, KeyOf(normalize), order, buckets, i);
    }
    ghost var arranged := SortedEntries(findings, KeyOf(normalize), order, entries);
    var sorted := Sorted(ByFirst(), entries);
    merged := MergedIn(sorted);
    assert AreMerges(GroupsIn(sorted), merged);
  }

  // ------------------------------------------------------------------ what a grouping guarantees

  lemma GroupsSeparate(findings: seq<Finding>, keyOf: Finding -> Key, groups: seq<Group>, k: nat, l: nat)
    requires IsDedup(findings, keyOf, groups) && k < |groups| && l < |groups| && k != l
    ensures GroupOk(findings, keyOf, groups[k]) && GroupOk(findings, keyOf, groups[l])
    ensures Separate(keyOf, groups[k], groups[l])
  {
    if k > l {
      SeparateSymmetric(keyOf, groups[l], groups[k]);
    }
  }

  /** Every finding is in exactly one group. */
  lemma ExactlyOneGroup(findings: seq<Finding>, keyOf: Finding -> Key, groups: seq<Group>, i: nat)
    requires IsDedup(findings, keyOf, groups) && i < |findings|
    ensures exists k :: 0 <= k < |groups| && Item(i, findings[i]) in groups[k]
    ensures forall k, l | 0 <= k < |groups| && 0 <= l < |groups| ::
              Item(i, findings[i]) in groups[k] && Item(i, findings[i]) in groups[l] ==> k == l
  {
    var m := Item(i, findings[i]);
    assert InSome(groups, m);
    forall k, l | 0 <= k < |groups| && 0 <= l < |groups| && m in groups[k] && m in groups[l]
      ensures k == l
    {
      if k != l {
        GroupsSeparate(findings, keyOf, groups, k, l);
        SeparateDisjoint(findings, keyOf, groups[k], groups[l], m, m);
      }
    }
  }

  /** Findings of one bucket that start on the same line are always in the same group. */
  lemma SameLineSameGroup(findings: seq<Finding>, keyOf: Finding -> Key, groups: seq<Group>, k: nat, l: nat, a: Item, b: Item)
    requires IsDedup(findings, keyOf, groups) && k < |groups| && l < |groups|
    requires a in groups[k] && b in groups[l]
    requires keyOf(a.finding) == keyOf(b.finding) && a.finding.startLine == b.finding.startLine
    ensures k == l
  {
    if k != l {
      GroupsSeparate(findings, keyOf, groups, k, l);
      SeparateDisjoint(findings, keyOf, groups[k], groups[l], a, b);
    }
  }

  /** Anchors of one bucket are pairwise not co-located, and a member of a later group is not
      co-located with the anchor of an earlier one. */
  lemma AnchorsApart(findings: seq<Finding>, keyOf: Finding -> Key, groups: seq<Group>, k: nat, l: nat, m: Item)
    requires IsDedup(findings, keyOf, groups) && k < |groups| && l < |groups| && k != l
    requires groups[k] != [] && groups[l] != [] && keyOf(groups[k][0].finding) == keyOf(groups[l][0].finding)
    ensures !SameLocation(groups[k][0].finding, groups[l][0].finding)
    ensures m in groups[l] && Before(groups[k][0], groups[l][0]) ==> !SameLocation(groups[k][0].finding, m.finding)
  {
    GroupsSeparate(findings, keyOf, groups, k, l);
    assert groups[k][0] in groups[k] && groups[l][0] in groups[l];
  }

  /** Surviving findings of one bucket start on different lines. */
  lemma SurvivorsOnDifferentLines(findings: seq<Finding>, keyOf: Finding -> Key, groups: seq<Group>, k: nat, l: nat)
    requires IsDedup(findings, keyOf, groups) && k < |groups| && l < |groups| && k != l
    requires groups[k] != [] && groups[l] != [] && keyOf(groups[k][0].finding) == keyOf(groups[l][0].finding)
    ensures Merge(FindingsOf(groups[k])).startLine != Merge(FindingsOf(groups[l])).startLine
  {
    GroupsSeparate(findings, keyOf, groups, k, l);
    var a, b := Keeper(FindingsOf(groups[k])), Keeper(FindingsOf(groups[l]));
    var i :| 0 <= i < |groups[k]| && groups[k][i].finding == a;
    var j :| 0 <= j < |groups[l]| && groups[l][j].finding == b;
    assert groups[k][i] in groups[k] && groups[l][j] in groups[l];
    SeparateDisjoint(findings, keyOf, groups[k], groups[l], groups[k][i], groups[l][j]);
  }

  // ------------------------------------------------------------------ nothing is lost

  ghost function Positions(g: Group): set<nat> {
    set m | m in g :: m.index
  }

  ghost function AllPositions(groups: seq<Group>): set<nat> {
    if groups == [] then {} else AllPositions(groups[..|groups| - 1]) + Positions(groups[|groups| - 1])
  }

  ghost function Sizes(groups: seq<Group>): nat {
    if groups == [] then 0 else Sizes(groups[..|groups| - 1]) + |groups[|groups| - 1]|
  }

  lemma {:induction false} AscendingPositions(g: Group, findings: seq<Finding>)
    requires Ascending(g) && forall m | m in g :: m.index < |findings| && m.finding == findings[m.index]
    ensures |Positions(g)| == |g|
  {
    if g != [] {
      var n := |g| - 1;
      AscendingPositions(g[..n], findings);
      assert g == g[..n] + [g[n]];
      forall m | m in g[..n]
        ensures m.index != g[n].index
      {
        var i :| 0 <= i < n && g[i] == m;
        assert g[n] in g && m in g && Before(g[i], g[n]);
      }
      assert Positions(g) == Positions(g[..n]) + {g[n].index};
    }
  }

  lemma {:induction false} InAllPositions(groups: seq<Group>, i: nat)
    ensures i in AllPositions(groups) <==> exists k, m :: 0 <= k < |groups| && m in groups[k] && m.index == i
  {
    if groups != [] {
      InAllPositions(groups[..|groups| - 1], i);
    }
  }

  lemma GroupsShareNone(findings: seq<Finding>, keyOf: Finding -> Key, groups: seq<Group>, k: nat, n: nat, a: Item, b: Item)
    requires IsDedup(findings, keyOf, groups) && k < |groups| && n < |groups| && k != n
    requires a in groups[k] && b in groups[n]
    ensures a.index != b.index
  {
    GroupsSeparate(findings, keyOf, groups, k, n);
    if keyOf(a.finding) == keyOf(b.finding) {
      SeparateDisjoint(findings, keyOf, groups[k], groups[n], a, b);
    }
  }

  lemma LastDisjoint(findings: seq<Finding>, keyOf: Finding -> Key, groups: seq<Group>, n: nat)
    requires IsDedup(findings, keyOf, groups) && n < |groups|
    ensures AllPositions(groups[..n]) !! Positions(groups[n])
  {
    forall i | i in AllPositions(groups[..n]) && i in Positions(groups[n])
      ensures false
    {
      InAllPositions(groups[..n], i);
      var k, a :| 0 <= k < n && a in groups[..n][k] && a.index == i;
      var b :| b in groups[n] && b.index == i;
      GroupsShareNone(findings, keyOf, groups, k, n, a, b);
    }
  }

  lemma {:induction false} DisjointSizes(findings: seq<Finding>, keyOf: Finding -> Key, groups: seq<Group>, n: nat)
    requires IsDedup(findings, keyOf, groups) && n <= |groups|
    ensures Sizes(groups[..n]) == |AllPositions(groups[..n])|
  {
    if n > 0 {
      DisjointSizes(findings, keyOf, groups, n - 1);
      LastDisjoint(findings, keyOf, groups, n - 1);
      assert groups[..n][..n - 1] == groups[..n - 1];
      assert GroupOk(findings, keyOf, groups[n - 1]);
      AscendingPositions(groups[n - 1], findings);
    }
  }

  ghost function UpTo(n: nat): (s: set<nat>)
    ensures forall i: nat :: i in s <==> i < n
    ensures |s| == n
  {
    if n == 0 then {} else UpTo(n - 1) + {n - 1}
  }

  lemma SizesAddUp(findings: seq<Finding>, keyOf: Finding -> Key, groups: seq<Group>)
    requires IsDedup(findings, keyOf, groups)
    ensures Sizes(groups) == |findings|
  {
    DisjointSizes(findings, keyOf, groups, |groups|);
    assert groups[..|groups|] == groups;
    forall i: nat
      ensures i in AllPositions(groups) <==> i < |findings|
    {
      InAllPositions(groups, i);
      if i < |findings| {
        ExactlyOneGroup(findings, keyOf, groups, i);
      }
    }
    assert AllPositions(groups) == UpTo(|findings|);
  }

  /** What the output accounts for: each finding and the ones merged into it. */
  function Accounted(merged: seq<Finding>): nat {
    if merged == [] then 0 else Accounted(merged[..|merged| - 1]) + 1 + |merged[|merged| - 1].mergedFrom|
  }

  /** Further listings of the very object that a group keeps. */
  ghost function Surplus(g: Group): (n: nat)
    requires g != []
  {
    var group := FindingsOf(g);
    KeeperIsListed(group, Keeper(group));
    Copies(group, Keeper(group)) - 1
  }

  ghost function Repeats(groups: seq<Group>): nat
    requires forall k | 0 <= k < |groups| :: groups[k] != []
  {
    if groups == [] then 0 else Repeats(groups[..|groups| - 1]) + Surplus(groups[|groups| - 1])
  }

  lemma {:induction false} NoRepeats(groups: seq<Group>)
    requires forall k | 0 <= k < |groups| :: groups[k] != []
    ensures Repeats(groups) == 0 <==> forall k | 0 <= k < |groups| :: Surplus(groups[k]) == 0
  {
    if groups != [] {
      NoRepeats(groups[..|groups| - 1]);
    }
  }

  lemma GroupAccounts(g: Group)
    requires g != [] && forall m | m in g :: m.finding.mergedFrom == []
    ensures 1 + |Merge(FindingsOf(g)).mergedFrom| + Surplus(g) == |g|
  {
    forall f | f in FindingsOf(g)
      ensures f.mergedFrom == []
    {
      var i :| 0 <= i < |g| && g[i].finding == f;
      assert g[i] in g;
    }
    MergeAccounts(FindingsOf(g));
  }

  lemma {:induction false} AccountedSizes(groups: seq<Group>, merged: seq<Finding>)
    requires |merged| == |groups|
    requires forall k | 0 <= k < |groups| :: groups[k] != [] && merged[k] == Merge(FindingsOf(groups[k]))
    requires forall k | 0 <= k < |groups| :: forall m | m in groups[k] :: m.finding.mergedFrom == []
    ensures Accounted(merged) + Repeats(groups) == Sizes(groups)
  {
    if groups != [] {
      AccountedSizes(groups[..|groups| - 1], merged[..|groups| - 1]);
      GroupAccounts(groups[|groups| - 1]);
    }
  }

  /** Evidence is conserved: the output accounts for every input finding exactly if no kept object is
      listed twice in its group; otherwise exactly the repeated listings are missing. */
  lemma EvidenceConserved(findings: seq<Finding>, keyOf: Finding -> Key, groups: seq<Group>, merged: seq<Finding>)
    requires IsDedup(findings, keyOf, groups) && AreMerges(groups, merged)
    requires forall f | f in findings :: f.mergedFrom == []
    ensures Accounted(merged) + Repeats(groups) == |findings|
    ensures Accounted(merged) == |findings| <==> forall k | 0 <= k < |groups| :: Surplus(groups[k]) == 0
  {
    forall k, m | 0 <= k < |groups| && m in groups[k]
      ensures m.finding.mergedFrom == []
    {
      assert GroupOk(findings, keyOf, groups[k]);
      assert m.finding == findings[m.index] && findings[m.index] in findings;
    }
    AccountedSizes(groups, merged);
    NoRepeats(groups);
    SizesAddUp(findings, keyOf, groups);
  }

  lemma {:induction false} OneCopy(group: seq<Finding>, f: Finding)
    requires forall i, j | 0 <= i < j < |group| :: group[i].id != group[j].id
    ensures Copies(group, f) <= 1
    ensures (forall i | 0 <= i < |group| :: group[i].id != f.id) ==> Copies(group, f) == 0
  {
    if group != [] {
      OneCopy(group[..|group| - 1], f);
    }
  }

  lemma DistinctObjectsOnce(findings: seq<Finding>, keyOf: Finding -> Key, g: Group)
    requires GroupOk(findings, keyOf, g)
    requires forall i, j | 0 <= i < j < |findings| :: findings[i].id != findings[j].id
    ensures Surplus(g) == 0
  {
    forall i, j | 0 <= i < j < |g|
      ensures g[i].finding.id != g[j].finding.id
    {
      assert g[i] in g && g[j] in g && Before(g[i], g[j]);
      assert g[i].index < g[j].index || g[j].index < g[i].index;
    }
    OneCopy(FindingsOf(g), Keeper(FindingsOf(g)));
  }

  /** With every input a distinct object, as the analyzers produce them, nothing is missing. */
  lemma DistinctObjectsConserved(findings: seq<Finding>, keyOf: Finding -> Key, groups: seq<Group>, merged: seq<Finding>)
    requires IsDedup(findings, keyOf, groups) && AreMerges(groups, merged)
    requires forall f | f in findings :: f.mergedFrom == []
    requires forall i, j | 0 <= i < j < |findings| :: findings[i].id != findings[j].id
    ensures Accounted(merged) == |findings|
  {
    EvidenceConserved(findings, keyOf, groups, merged);
    forall k | 0 <= k < |groups|
      ensures Surplus(groups[k]) == 0
    {
      DistinctObjectsOnce(findings, keyOf, groups[k]);
    }
  }

  // ------------------------------------------------------------------ which inputs lose evidence

  ghost predicate Unmerged(findings: seq<Finding>) {
    forall f | f in findings :: f.mergedFrom == []
  }

  /** Entries with one identity are one object. */
  ghost predicate AreObjects(findings: seq<Finding>) {
    forall i, j | 0 <= i < |findings| && 0 <= j < |findings| :: findings[i].id == findings[j].id ==> findings[i] == findings[j]
  }

  predicate HaveIds(findings: seq<Finding>, ids: seq<nat>) {
    |findings| == |ids| && forall i | 0 <= i < |ids| :: findings[i].id == ids[i]
  }

  /** The merged findings account for every finding of the input. */
  ghost predicate Conserves(findings: seq<Finding>, keyOf: Finding -> Key, merged: seq<Finding>) {
    IsDeduplicated(findings, keyOf, merged) ==> Accounted(merged) == |findings|
  }

  /** Whatever the findings with these identities say, none is lost. */
  ghost predicate AlwaysConserves(ids: seq<nat>, keyOf: Finding -> Key) {
    forall findings, merged | HaveIds(findings, ids) && AreObjects(findings) && Unmerged(findings) ::
      Conserves(findings, keyOf, merged)
  }

  lemma OneMerge(f: Finding)
    ensures Accounted([f]) == 1 + |f.mergedFrom|
  {
    var merged := [f];
    assert |merged[..0]| == 0;
  }

  lemma {:induction false} ListedTwice(group: seq<Finding>, f: Finding, i: nat, j: nat)
    requires i < j < |group| && group[i].id == f.id && group[j].id == f.id
    ensures Copies(group, f) >= 2
  {
    var front := group[..|group| - 1];
    if j < |front| {
      ListedTwice(front, f, i, j);
    } else {
      assert front[i] in front;
      ListedOnce(front, f, i);
    }
  }

  lemma {:induction false} ListedOnce(group: seq<Finding>, f: Finding, i: nat)
    requires i < |group| && group[i].id == f.id
    ensures Copies(group, f) >= 1
  {
    if i < |group| - 1 {
      ListedOnce(group[..|group| - 1], f, i);
    }
  }

  /** A finding of one line; only the rich one has anything to say. */
  function Sample(id: nat, rich: bool): Finding {
    Finding(id, "ruff", "E1", Info, "a.py", 1, 1, if rich then "x" else "", "", "style", [], {}, [])
  }

  /** Findings on one line, of which the object `x` is the richest. */
  function Samples(ids: seq<nat>, x: nat): (r: seq<Finding>)
    ensures HaveIds(r, ids) && forall i | 0 <= i < |r| :: r[i] == Sample(ids[i], ids[i] == x)
  {
    seq(|ids|, i requires 0 <= i < |ids| => Sample(ids[i], ids[i] == x))
  }

  function Itemized(findings: seq<Finding>): (g: Group)
    ensures |g| == |findings| && forall i | 0 <= i < |g| :: g[i] == Item(i, findings[i])
  {
    seq(|findings|, i requires 0 <= i < |findings| => Item(i, findings[i]))
  }

  lemma SamplesAlike(id: nat, rich: bool, other: nat, otherRich: bool, normalize: string -> string)
    ensures var a, b := Sample(id, rich), Sample(other, otherRich);
      KeyOf(normalize)(a) == KeyOf(normalize)(b) && SameLocation(b, a)
  {
    assert KeyOf(normalize)(Sample(id, rich)) == Key(normalize("a.py"), "style");
    assert KeyOf(normalize)(Sample(other, otherRich)) == Key(normalize("a.py"), "style");
  }

  lemma ItemizedIsOk(ids: seq<nat>, x: nat, normalize: string -> string)
    requires ids != []
    ensures GroupOk(Samples(ids, x), KeyOf(normalize), Itemized(Samples(ids, x)))
    ensures FindingsOf(Itemized(Samples(ids, x))) == Samples(ids, x)
  {
    var g := Itemized(Samples(ids, x));
    forall m | m in g
      ensures m.index < |g| && m.finding == Samples(ids, x)[m.index]
      ensures KeyOf(normalize)(m.finding) == KeyOf(normalize)(g[0].finding)
      ensures SameLocation(g[0].finding, m.finding)
    {
      var i :| 0 <= i < |g| && g[i] == m;
      SamplesAlike(ids[i], ids[i] == x, ids[0], ids[0] == x, normalize);
    }
  }

  lemma OneGroup(ids: seq<nat>, x: nat, normalize: string -> string, groups: seq<Group>, merged: seq<Finding>)
    requires ids != [] && groups == [Itemized(Samples(ids, x))] && merged == [Merge(Samples(ids, x))]
    ensures IsDedup(Samples(ids, x), KeyOf(normalize), groups) && AreMerges(groups, merged)
  {
    ItemizedIsOk(ids, x, normalize);
    var findings, g := Samples(ids, x), groups[0];
    forall i | 0 <= i < |findings|
      ensures InSome(groups, Item(i, findings[i]))
    {
      assert g[i] in groups[0];
    }
  }

  lemma RichestIsKept(ids: seq<nat>, x: nat, i: nat)
    requires i < |ids| && ids[i] == x
    ensures Keeper(Samples(ids, x)).id == x
  {
    var findings := Samples(ids, x);
    KeeperIsRichest(findings);
    assert findings[i] in findings && Stripped("x") == "x";
    var k :| 0 <= k < |findings| && findings[k] == Keeper(findings);
  }

  /** If an object is listed twice, some input with these identities loses one of its listings. */
  lemma RepeatLoses(ids: seq<nat>, i: nat, j: nat, normalize: string -> string) returns (findings: seq<Finding>, merged: seq<Finding>)
    requires i < j < |ids| && ids[i] == ids[j]
    ensures HaveIds(findings, ids) && AreObjects(findings) && Unmerged(findings)
    ensures IsDeduplicated(findings, KeyOf(normalize), merged) && Accounted(merged) < |findings|
  {
    var x := ids[i];
    findings := Samples(ids, x);
    merged := [Merge(findings)];
    OneGroup(ids, x, normalize, [Itemized(findings)], merged);
    SamplesLose(ids, x, i, j);
  }

  lemma SamplesLose(ids: seq<nat>, x: nat, i: nat, j: nat)
    requires i < j < |ids| && ids[i] == x && ids[j] == x
    ensures Accounted([Merge(Samples(ids, x))]) < |ids|
    ensures AreObjects(Samples(ids, x)) && Unmerged(Samples(ids, x))
  {
    var findings := Samples(ids, x);
    RichestIsKept(ids, x, i);
    ListedTwice(findings, Keeper(findings), i, j);
    MergeAccounts(findings);
    OneMerge(Merge(findings));
  }

  /** For the identities of an input: every input with them is accounted for in full if and only if no
      object is listed twice. */
  lemma ConservedExactlyIfDistinct(ids: seq<nat>, normalize: string -> string)
    ensures AlwaysConserves(ids, KeyOf(normalize)) <==> Distinct(ids)
  {
    if Distinct(ids) {
      forall findings, merged | HaveIds(findings, ids) && AreObjects(findings) && Unmerged(findings)
        ensures Conserves(findings, KeyOf(normalize), merged)
      {
        if groups :| IsDedup(findings, KeyOf(normalize), groups) && AreMerges(groups, merged) {
          DistinctObjectsConserved(findings, KeyOf(normalize), groups, merged);
        }
      }
    } else {
      var i, j :| 0 <= i < j < |ids| && ids[i] == ids[j];
      var findings, merged := RepeatLoses(ids, i, j, normalize);
      assert !Conserves(findings, KeyOf(normalize), merged);
    }
  }

  /** Any finding passed twice comes back once, with no trace of the second listing. */
  lemma PassedTwice(f: Finding, normalize: string -> string, merged: seq<Finding>)
    requires f.mergedFrom == [] && IsDeduplicated([f, f], KeyOf(normalize), merged)
    ensures |merged| == 1 && Accounted(merged) == 1
  {
    var groups :| IsDedup([f, f], KeyOf(normalize), groups) && AreMerges(groups, merged);
    OnlyGroup(f, KeyOf(normalize), groups);
    OnlyMerge(f, groups[0], merged);
  }

  lemma OnlyMerge(f: Finding, g: Group, merged: seq<Finding>)
    requires g != [] && f.mergedFrom == [] && forall m | m in g :: m.finding == f
    requires |merged| == 1 && merged[0] == Merge(FindingsOf(g))
    ensures Accounted(merged) == 1
  {
    CopiesMerge(f, g);
    OneMerge(merged[0]);
    assert merged == [merged[0]];
  }

  lemma CopiesMerge(f: Finding, g: Group)
    requires g != [] && f.mergedFrom == [] && forall m | m in g :: m.finding == f
    ensures Merge(FindingsOf(g)).mergedFrom == []
  {
    forall i | 0 <= i < |FindingsOf(g)|
      ensures FindingsOf(g)[i] == f
    {
      assert g[i] in g;
    }
    AllCopies(FindingsOf(g), f);
    MergeAccounts(FindingsOf(g));
  }

  lemma FromTwo(f: Finding, keyOf: Finding -> Key, groups: seq<Group>, k: nat, m: Item)
    requires IsDedup([f, f], keyOf, groups) && k < |groups| && m in groups[k]
    ensures m.finding == f
  {
    assert GroupOk([f, f], keyOf, groups[k]);
  }

  lemma SameGroup(f: Finding, keyOf: Finding -> Key, groups: seq<Group>, k: nat, l: nat)
    requires IsDedup([f, f], keyOf, groups) && k < |groups| && l < |groups|
    ensures k == l
  {
    assert GroupOk([f, f], keyOf, groups[k]) && GroupOk([f, f], keyOf, groups[l]);
    var a, b := groups[k][0], groups[l][0];
    FromTwo(f, keyOf, groups, k, a);
    FromTwo(f, keyOf, groups, l, b);
    SameLineSameGroup([f, f], keyOf, groups, k, l, a, b);
  }

  lemma OnlyGroup(f: Finding, keyOf: Finding -> Key, groups: seq<Group>)
    requires IsDedup([f, f], keyOf, groups)
    ensures |groups| == 1 && groups[0] != [] && forall m | m in groups[0] :: m.finding == f
  {
    assert InSome(groups, Item(0, [f, f][0]));
    if |groups| > 1 {
      SameGroup(f, keyOf, groups, 0, 1);
    } else {
      forall m | m in groups[0]
        ensures m.finding == f
      {
        FromTwo(f, keyOf, groups, 0, m);
      }
    }
  }

  lemma {:induction false} AllCopies(group: seq<Finding>, f: Finding)
    requires forall i | 0 <= i < |group| :: group[i] == f
    ensures Copies(group, f) == |group|
  {
    if group != [] {
      AllCopies(group[..|group| - 1], f);
    }
  }
}
