/** backend/app/services/compare.py `diff_findings`: matching two scans as multisets of identities.
    A finding carries its identity; the report order is a parameter. */
module ScanDiff {
  import opened Collections
  import opened Sorting

  /** The tuple `finding_identity` returns: analyzer, rule, file and evidence, or the dependency. */
  datatype Identity = Identity(parts: seq<string>)

  datatype Finding = Finding(identity: Identity, severity: nat, path: string, startLine: int)

  datatype Comparison = Comparison(added: seq<Finding>, resolved: seq<Finding>, matched: nat)

  /** The findings with identity `k`, in order. */
  function WithId(s: seq<Finding>, k: Identity): (r: seq<Finding>)
    ensures |r| <= |s|
  {
    if s == [] then [] else
      WithId(s[..|s| - 1], k) + if s[|s| - 1].identity == k then [s[|s| - 1]] else []
  }

  /** The identities of a list, with multiplicity. */
  ghost function Ids(s: seq<Finding>): multiset<Identity> {
    if s == [] then multiset{} else Ids(s[..|s| - 1]) + multiset{s[|s| - 1].identity}
  }

  /** The head findings beyond as many of their identity as the base has. */
  ghost function NewOf(base: seq<Finding>, head: seq<Finding>): seq<Finding> {
    if head == [] then [] else
      var front, last := head[..|head| - 1], head[|head| - 1];
      NewOf(base, front) +
      if |WithId(front, last.identity)| >= |WithId(base, last.identity)| then [last] else []
  }

  /** Of a bucket of `base`, what is left after `used` of its last members are matched. */
  ghost function Left(base: seq<Finding>, head: seq<Finding>, k: Identity): seq<Finding> {
    var bucket, used := WithId(base, k), |WithId(head, k)|;
    if used >= |bucket| then [] else bucket[..|bucket| - used]
  }

  ghost function LeftOver(base: seq<Finding>, head: seq<Finding>, order: seq<Identity>): seq<Finding> {
    if order == [] then [] else
      LeftOver(base, head, order[..|order| - 1]) + Left(base, head, order[|order| - 1])
  }

  lemma {:induction false} IdsCount(s: seq<Finding>, k: Identity)
    ensures Ids(s)[k] == |WithId(s, k)|
  {
    if s != [] {
      IdsCount(s[..|s| - 1], k);
    }
  }

  lemma {:induction false} IdsSize(s: seq<Finding>)
    ensures |Ids(s)| == |s|
  {
    if s != [] {
      IdsSize(s[..|s| - 1]);
    }
  }

  lemma {:induction false} WithIdConcat(a: seq<Finding>, b: seq<Finding>, k: Identity)
    ensures WithId(a + b, k) == WithId(a, k) + WithId(b, k)
  {
    if b == [] {
      assert a + b == a;
    } else {
      WithIdConcat(a, b[..|b| - 1], k);
      assert (a + b)[..|a + b| - 1] == a + b[..|b| - 1];
    }
  }

  lemma {:induction false} WithIdOfBucket(s: seq<Finding>, k: Identity, j: Identity)
    requires forall i | 0 <= i < |s| :: s[i].identity == k
    ensures WithId(s, j) == if j == k then s else []
  {
    if s != [] {
      var front, last := s[..|s| - 1], s[|s| - 1];
      WithIdOfBucket(front, k, j);
      assert s == front + [last];
    }
  }

  lemma {:induction false} WithIdMembers(s: seq<Finding>, k: Identity)
    ensures forall f | f in WithId(s, k) :: f.identity == k && f in s
  {
    if s != [] {
      WithIdMembers(s[..|s| - 1], k);
    }
  }

  lemma {:induction false} NewCount(base: seq<Finding>, head: seq<Finding>, k: Identity)
    ensures var h, b := |WithId(head, k)|, |WithId(base, k)|;
      |WithId(NewOf(base, head), k)| == if h > b then h - b else 0
  {
    if head != [] {
      var front, last := head[..|head| - 1], head[|head| - 1];
      NewCount(base, front, k);
      WithIdConcat(NewOf(base, front), [last], k);
      assert NewOf(base, front) + [] == NewOf(base, front);
      assert [last][..0] == [];
    }
  }

  lemma LeftIsBucket(base: seq<Finding>, head: seq<Finding>, k: Identity)
    ensures forall i | 0 <= i < |Left(base, head, k)| :: Left(base, head, k)[i].identity == k
  {
    WithIdMembers(base, k);
    forall i | 0 <= i < |Left(base, head, k)|
      ensures Left(base, head, k)[i].identity == k
    {
      assert Left(base, head, k)[i] == WithId(base, k)[i] && WithId(base, k)[i] in WithId(base, k);
    }
  }

  lemma {:induction false} LeftOverCount(base: seq<Finding>, head: seq<Finding>, order: seq<Identity>, k: Identity)
    requires Distinct(order)
    ensures WithId(LeftOver(base, head, order), k) ==
              if k in order then Left(base, head, k) else []
  {
    if order != [] {
      var front, last := order[..|order| - 1], order[|order| - 1];
      var before, left := LeftOver(base, head, front), Left(base, head, last);
      assert order == front + [last] && last !in front;
      LeftOverCount(base, head, front, k);
      LeftIsBucket(base, head, last);
      WithIdOfBucket(left, last, k);
      WithIdConcat(before, left, k);
      assert WithId(LeftOver(base, head, order), k) ==
             (if k in front then Left(base, head, k) else []) + (if k == last then left else []);
    }
  }

  /** Equal lists as multisets have equal identities. */
  lemma {:induction false} IdsPermuted(a: seq<Finding>, b: seq<Finding>)
    requires multiset(a) == multiset(b)
    ensures Ids(a) == Ids(b)
    decreases |a|
  {
    assert |a| == |multiset(a)| == |multiset(b)| == |b|;
    if a != [] {
      var x := a[|a| - 1];
      SameMembers(a, b, x);
      var j :| 0 <= j < |b| && b[j] == x;
      WithoutLast(a);
      RemoveAt(b, j);
      IdsPermuted(a[..|a| - 1], b[..j] + b[j + 1..]);
    }
  }

  lemma SameIds(a: seq<Finding>, b: seq<Finding>, x: multiset<Identity>)
    requires forall k :: |WithId(a, k)| == |WithId(b, k)| + x[k]
    ensures Ids(a) == Ids(b) + x
  {
    forall k: Identity
      ensures Ids(a)[k] == (Ids(b) + x)[k]
    {
      IdsCount(a, k);
      IdsCount(b, k);
    }
  }

  lemma CountAround(front: seq<Finding>, f: Finding, back: seq<Finding>, k: Identity)
    ensures |WithId(front + ([f] + back), k)| == |WithId(front + back, k)| + multiset{f.identity}[k]
  {
    WithIdConcat(front, [f] + back, k);
    WithIdConcat([f], back, k);
    WithIdConcat(front, back, k);
    assert [f][..0] == [];
    assert WithId([f], k) == if f.identity == k then [f] else [];
  }

  lemma IdsAround(front: seq<Finding>, f: Finding, back: seq<Finding>)
    ensures Ids(front + ([f] + back)) == Ids(front + back) + multiset{f.identity}
  {
    forall k: Identity
      ensures |WithId(front + ([f] + back), k)| == |WithId(front + back, k)| + multiset{f.identity}[k]
    {
      CountAround(front, f, back, k);
    }
    SameIds(front + ([f] + back), front + back, multiset{f.identity});
  }

  lemma RemoveAt(b: seq<Finding>, j: nat)
    requires j < |b|
    ensures Ids(b) == Ids(b[..j] + b[j + 1..]) + multiset{b[j].identity}
    ensures multiset(b[..j] + b[j + 1..]) == multiset(b) - multiset{b[j]}
  {
    SplitAt(b, j);
    IdsAround(b[..j], b[j], b[j + 1..]);
    MultisetAround(b[..j], b[j], b[j + 1..]);
  }

  // ------------------------------------------------------------------ the two loops

  /** The identities of a list, each once, in order of first appearance. */
  function FirstSeen(s: seq<Finding>): seq<Identity> {
    if s == [] then [] else
      var order, k := FirstSeen(s[..|s| - 1]), s[|s| - 1].identity;
      if k in order then order else order + [k]
  }

  ghost predicate Filled(base: seq<Finding>, order: seq<Identity>, buckets: map<Identity, seq<Finding>>) {
    && Distinct(order) && order == FirstSeen(base)
    && (forall k :: k in order <==> k in buckets)
    && (forall k :: BucketIn(buckets, k) == WithId(base, k))
    && (forall k | k in buckets :: buckets[k] != [])
  }

  lemma FillStep(base: seq<Finding>, f: Finding, order: seq<Identity>, buckets: map<Identity, seq<Finding>>)
    requires Filled(base, order, buckets)
    ensures var k := f.identity;
      Filled(base + [f], if k in buckets then order else order + [k], buckets[k := BucketIn(buckets, k) + [f]])
  {
    var k := f.identity;
    var buckets' := buckets[k := BucketIn(buckets, k) + [f]];
    assert (base + [f])[..|base|] == base;
    forall j: Identity
      ensures BucketIn(buckets', j) == WithId(base + [f], j)
    {
      assert BucketIn(buckets, j) == WithId(base, j);
    }
  }

  /** One base finding is put at the end of its bucket. */
  method FillOne(ghost base: seq<Finding>, f: Finding, order0: seq<Identity>, buckets0: map<Identity, seq<Finding>>)
    returns (order: seq<Identity>, buckets: map<Identity, seq<Finding>>)
    requires Filled(base, order0, buckets0)
    ensures Filled(base + [f], order, buckets)
  {
    FillStep(base, f, order0, buckets0);
    var k := f.identity;
    order, buckets := if k in buckets0 then order0 else order0 + [k], buckets0[k := BucketIn(buckets0, k) + [f]];
  }

  method Fill(base: seq<Finding>) returns (order: seq<Identity>, buckets: map<Identity, seq<Finding>>)
    ensures Filled(base, order, buckets)
  {
    order, buckets := [], map[];
    var i := 0;
    while i < |base|
      invariant 0 <= i <= |base|
      invariant Filled(base[..i], order, buckets)
    {
      NextPrefix(base, i);
      order, buckets := FillOne(base[..i], base[i], order, buckets);
      i := i + 1;
    }
    assert base[..i] == base;
  }

  ghost predicate Matching(base: seq<Finding>, head: seq<Finding>, order: seq<Identity>,
                                             buckets: map<Identity, seq<Finding>>, added: seq<Finding>) {
    && (forall k :: k in order <==> k in buckets)
    && (forall k :: BucketIn(buckets, k) == Left(base, head, k))
    && added == NewOf(base, head)
  }

  lemma MatchHit(base: seq<Finding>, head: seq<Finding>, f: Finding, order: seq<Identity>,
                 buckets: map<Identity, seq<Finding>>, added: seq<Finding>, bucket: seq<Finding>)
    requires Matching(base, head, order, buckets, added)
    requires bucket == BucketIn(buckets, f.identity) && bucket != []
    ensures Matching(base, head + [f], order, buckets[f.identity := bucket[..|bucket| - 1]], added)
  {
    assert (head + [f])[..|head|] == head;
    assert bucket == Left(base, head, f.identity);
    var buckets' := buckets[f.identity := bucket[..|bucket| - 1]];
    forall j: Identity
      ensures BucketIn(buckets', j) == Left(base, head + [f], j)
    {
      assert BucketIn(buckets, j) == Left(base, head, j);
    }
  }

  lemma MatchMiss(base: seq<Finding>, head: seq<Finding>, f: Finding, order: seq<Identity>,
                  buckets: map<Identity, seq<Finding>>, added: seq<Finding>)
    requires Matching(base, head, order, buckets, added) && BucketIn(buckets, f.identity) == []
    ensures Matching(base, head + [f], order, buckets, added + [f])
  {
    assert (head + [f])[..|head|] == head;
    assert Left(base, head, f.identity) == [];
    forall j: Identity
      ensures BucketIn(buckets, j) == Left(base, head + [f], j)
    {
      assert BucketIn(buckets, j) == Left(base, head, j);
    }
  }

  lemma MatchStart(base: seq<Finding>, order: seq<Identity>, buckets: map<Identity, seq<Finding>>)
    requires Filled(base, order, buckets)
    ensures Matching(base, [], order, buckets, [])
  {
    forall k: Identity
      ensures BucketIn(buckets, k) == Left(base, [], k)
    {
      assert BucketIn(buckets, k) == WithId(base, k);
    }
  }

  /** One head finding takes the last unmatched base finding of its identity, or is new. */
  method MatchOne(ghost base: seq<Finding>, ghost head: seq<Finding>, f: Finding, ghost order: seq<Identity>,
                  buckets0: map<Identity, seq<Finding>>, added0: seq<Finding>)
    returns (buckets: map<Identity, seq<Finding>>, added: seq<Finding>, hit: bool)
    requires Matching(base, head, order, buckets0, added0)
    ensures Matching(base, head + [f], order, buckets, added)
    ensures |added| + (if hit then 1 else 0) == |added0| + 1
  {
    buckets, added := buckets0, added0;
    var matches := BucketIn(buckets, f.identity);
    hit := matches != [];
    if hit {
      MatchHit(base, head, f, order, buckets, added, matches);
      buckets := buckets[f.identity := matches[..|matches| - 1]];
    } else {
      MatchMiss(base, head, f, order, buckets, added);
      added := added + [f];
    }
  }

  method MatchHead(ghost base: seq<Finding>, head: seq<Finding>, ghost order: seq<Identity>,
                   buckets0: map<Identity, seq<Finding>>)
    returns (buckets: map<Identity, seq<Finding>>, added: seq<Finding>, matched: nat)
    requires Filled(base, order, buckets0)
    ensures Matching(base, head, order, buckets, added)
    ensures matched + |added| == |head|
  {
    buckets, added, matched := buckets0, [], 0;
    MatchStart(base, order, buckets);
    assert head[..0] == [];
    var i := 0;
    while i < |head|
      invariant 0 <= i <= |head|
      invariant Matching(base, head[..i], order, buckets, added)
      invariant matched + |added| == i
    {
      var hit;
      NextPrefix(head, i);
      buckets, added, hit := MatchOne(base, head[..i], head[i], order, buckets, added);
      matched := if hit then matched + 1 else matched;
      i := i + 1;
    }
    assert head[..i] == head;
  }

  ghost predicate ListsIdentities(base: seq<Finding>, order: seq<Identity>) {
    Distinct(order) && forall k :: k in order <==> WithId(base, k) != []
  }

  lemma {:induction false} FirstSeenLists(base: seq<Finding>)
    ensures ListsIdentities(base, FirstSeen(base))
  {
    if base != [] {
      FirstSeenLists(base[..|base| - 1]);
    }
  }

  /** `resolved` goes through the base's identities in order of first appearance before it is sorted. */
  ghost predicate IsComparison(leq: (Finding, Finding) -> bool, base: seq<Finding>, head: seq<Finding>, c: Comparison) {
    && c.added == Sorted(leq, NewOf(base, head))
    && c.resolved == Sorted(leq, LeftOver(base, head, FirstSeen(base)))
    && c.matched + |c.added| == |head|
  }

  /** `diff_findings`. New findings are the head's surplus of each identity and resolved ones the
      base's, earliest first within an identity, both in report order. */
  method DiffFindings(leq: (Finding, Finding) -> bool, base: seq<Finding>, head: seq<Finding>)
    returns (c: Comparison)
    ensures IsComparison(leq, base, head, c)
  {
    var keys, buckets := Fill(base);
    var remaining, added, matched := MatchHead(base, head, keys, buckets);
    var resolved := [];
    for b := 0 to |keys|
      invariant resolved == LeftOver(base, head, keys[..b])
    {
      assert keys[..b + 1][..b] == keys[..b];
      assert keys[b] in keys && BucketIn(remaining, keys[b]) == Left(base, head, keys[b]);
      resolved := resolved + remaining[keys[b]];
    }
    assert keys[..|keys|] == keys;
    c := Comparison(Sorted(leq, added), Sorted(leq, resolved), matched);
  }

  // ------------------------------------------------------------------ multiset difference

  lemma NewIds(base: seq<Finding>, head: seq<Finding>)
    ensures Ids(NewOf(base, head)) == Ids(head) - Ids(base)
  {
    forall k: Identity
      ensures Ids(NewOf(base, head))[k] == (Ids(head) - Ids(base))[k]
    {
      NewCount(base, head, k);
      IdsCount(NewOf(base, head), k);
      IdsCount(head, k);
      IdsCount(base, k);
    }
  }

  lemma ResolvedIds(base: seq<Finding>, head: seq<Finding>, order: seq<Identity>)
    requires ListsIdentities(base, order)
    ensures Ids(LeftOver(base, head, order)) == Ids(base) - Ids(head)
  {
    forall k: Identity
      ensures Ids(LeftOver(base, head, order))[k] == (Ids(base) - Ids(head))[k]
    {
      LeftOverCount(base, head, order, k);
      IdsCount(LeftOver(base, head, order), k);
      IdsCount(head, k);
      IdsCount(base, k);
    }
  }

  /** The comparison is a difference of multisets of identities, in both directions, and counts add up. */
  lemma DiffIsMultisetDifference(leq: (Finding, Finding) -> bool, base: seq<Finding>, head: seq<Finding>, c: Comparison)
    requires IsComparison(leq, base, head, c)
    ensures Ids(c.added) == Ids(head) - Ids(base)
    ensures Ids(c.resolved) == Ids(base) - Ids(head)
    ensures c.matched == |Ids(head) * Ids(base)|
    ensures |c.added| + c.matched == |head| && |c.resolved| + c.matched == |base|
    ensures Ids(c.added) !! Ids(c.resolved)
  {
    var order := FirstSeen(base);
    FirstSeenLists(base);
    SortedMembers(leq, NewOf(base, head));
    SortedMembers(leq, LeftOver(base, head, order));
    IdsPermuted(c.added, NewOf(base, head));
    IdsPermuted(c.resolved, LeftOver(base, head, order));
    NewIds(base, head);
    ResolvedIds(base, head, order);
    IdsSize(head);
    IdsSize(base);
    IdsSize(c.added);
    IdsSize(c.resolved);
    DifferenceSize(Ids(head), Ids(base));
    DifferenceSize(Ids(base), Ids(head));
    assert Ids(head) * Ids(base) == Ids(base) * Ids(head);
  }

  lemma DifferenceSize(a: multiset<Identity>, b: multiset<Identity>)
    ensures |a - b| + |a * b| == |a|
  {
    assert (a - b) + (a * b) == a;
  }

  /** Comparing through a scan in between never reports fewer new findings than comparing directly. */
  lemma TriangleInequality(a: seq<Finding>, b: seq<Finding>, c: seq<Finding>)
    ensures |NewOf(a, c)| <= |NewOf(a, b)| + |NewOf(b, c)|
  {
    NewIds(a, c);
    NewIds(a, b);
    NewIds(b, c);
    IdsSize(NewOf(a, c));
    IdsSize(NewOf(a, b));
    IdsSize(NewOf(b, c));
    Detour(Ids(a), Ids(b), Ids(c));
  }

  lemma Detour(a: multiset<Identity>, b: multiset<Identity>, c: multiset<Identity>)
    ensures |c - a| <= |b - a| + |c - b|
  {
    var direct, through := c - a, (b - a) + (c - b);
    assert direct <= through;
    assert through == direct + (through - direct);
    assert |through| == |b - a| + |c - b|;
    assert |direct + (through - direct)| == |direct| + |through - direct|;
  }

  /** Only surplus copies of an identity are reported, the later ones of the head and the earlier ones
      of the base. */
  lemma SurplusReported(base: seq<Finding>, head: seq<Finding>, k: Identity)
    ensures var inHead, inBase := WithId(head, k), WithId(base, k);
      var both := if |inHead| < |inBase| then |inHead| else |inBase|;
      && WithId(NewOf(base, head), k) == inHead[both..]
      && WithId(LeftOver(base, head, FirstSeen(base)), k) == inBase[..|inBase| - both]
  {
    FirstSeenLists(base);
    LeftOverCount(base, head, FirstSeen(base), k);
    NewSuffix(base, head, k);
  }

  lemma WithIdOne(f: Finding, k: Identity)
    ensures WithId([f], k) == if f.identity == k then [f] else []
  {
    assert [f][..0] == [];
  }

  lemma SuffixGrows(s: seq<Finding>, f: Finding, b: nat)
    ensures Beyond(s + [f], b) == Beyond(s, b) + if |s| >= b then [f] else []
  {
  }

  ghost function Beyond(s: seq<Finding>, b: nat): seq<Finding> {
    if |s| > b then s[b..] else []
  }

  lemma NewExtends(base: seq<Finding>, front: seq<Finding>, last: Finding, k: Identity)
    ensures WithId(NewOf(base, front + [last]), k) ==
              WithId(NewOf(base, front), k) +
              if last.identity == k && |WithId(front, k)| >= |WithId(base, k)| then [last] else []
  {
    assert (front + [last])[..|front|] == front;
    WithIdConcat(NewOf(base, front), [last], k);
    WithIdOne(last, k);
    assert NewOf(base, front) + [] == NewOf(base, front);
  }

  lemma WithIdExtends(front: seq<Finding>, last: Finding, k: Identity)
    ensures WithId(front + [last], k) == WithId(front, k) + if last.identity == k then [last] else []
  {
    WithIdConcat(front, [last], k);
    WithIdOne(last, k);
  }

  lemma BeyondExtends(s: seq<Finding>, s': seq<Finding>, f: Finding, hit: bool, b: nat)
    requires s' == s + if hit then [f] else []
    ensures Beyond(s', b) == Beyond(s, b) + if hit && |s| >= b then [f] else []
  {
    if hit {
      SuffixGrows(s, f, b);
    } else {
      assert s' == s && Beyond(s, b) + [] == Beyond(s, b);
    }
  }

  lemma {:induction false} NewSuffix(base: seq<Finding>, head: seq<Finding>, k: Identity)
    ensures WithId(NewOf(base, head), k) == Beyond(WithId(head, k), |WithId(base, k)|)
  {
    if head != [] {
      var front, last := head[..|head| - 1], head[|head| - 1];
      NewSuffix(base, front, k);
      assert head == front + [last];
      NewExtends(base, front, last, k);
      WithIdExtends(front, last, k);
      BeyondExtends(WithId(front, k), WithId(head, k), last, last.identity == k, |WithId(base, k)|);
    }
  }
}
