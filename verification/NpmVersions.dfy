/** dep_health.py: npm version keys and the freshness score built on them. */
module NpmVersions {
  import opened Reals
  import opened Wrappers

  // ------------------------------------------------------------------ Python's ordering

  /** Python values made of integers, strings and tuples. */
  datatype Py = Int(n: int) | Str(s: string) | Tuple(items: seq<Py>)

  datatype Order = Less | Equal | Greater | TypeError {
    function Mirrored(): Order {
      match this
      case Less => Greater
      case Greater => Less
      case _ => this
    }
  }

  function CompareStrings(a: string, b: string): Order {
    if a == "" then (if b == "" then Equal else Less)
    else if b == "" then Greater
    else if a[0] == b[0] then CompareStrings(a[1..], b[1..])
    else if a[0] < b[0] then Less else Greater
  }

  /** Tuples are compared where they first differ, or by length. */
  function CompareItems(a: seq<Py>, b: seq<Py>): Order
    decreases a
  {
    if a == [] then (if b == [] then Equal else Less)
    else if b == [] then Greater
    else if a[0] == b[0] then CompareItems(a[1..], b[1..])
    else Compare(a[0], b[0])
  }

  function Compare(a: Py, b: Py): Order
    decreases a
  {
    match (a, b)
    case (Int(m), Int(n)) => if m < n then Less else if m == n then Equal else Greater
    case (Str(s), Str(t)) => CompareStrings(s, t)
    case (Tuple(x), Tuple(y)) => CompareItems(x, y)
    case _ => TypeError
  }

  lemma {:induction false} StringsMirrored(a: string, b: string)
    ensures CompareStrings(b, a) == CompareStrings(a, b).Mirrored()
    ensures CompareStrings(a, b) == Equal <==> a == b
    ensures CompareStrings(a, b) != TypeError
  {
    if a != "" && b != "" && a[0] == b[0] {
      StringsMirrored(a[1..], b[1..]);
      assert a == [a[0]] + a[1..] && b == [b[0]] + b[1..];
    }
  }

  lemma {:induction false} StringsTransitive(a: string, b: string, c: string)
    requires CompareStrings(a, b) == Less && CompareStrings(b, c) == Less
    ensures CompareStrings(a, c) == Less
  {
    if a != "" && b != "" && c != "" && a[0] == b[0] == c[0] {
      StringsTransitive(a[1..], b[1..], c[1..]);
    }
  }

  lemma {:induction false} ItemsMirrored(a: seq<Py>, b: seq<Py>)
    ensures CompareItems(b, a) == CompareItems(a, b).Mirrored()
    ensures CompareItems(a, b) == Equal <==> a == b
    decreases a
  {
    if a != [] && b != [] {
      if a[0] == b[0] {
        ItemsMirrored(a[1..], b[1..]);
        assert a == [a[0]] + a[1..] && b == [b[0]] + b[1..];
      } else {
        CompareMirrored(a[0], b[0]);
      }
    }
  }

  /** `>` is `<` with the sides swapped, and only equal values compare as equal. */
  lemma {:induction false} CompareMirrored(a: Py, b: Py)
    ensures Compare(b, a) == Compare(a, b).Mirrored()
    ensures Compare(a, b) == Equal <==> a == b
    decreases a
  {
    match (a, b)
    case (Str(s), Str(t)) => StringsMirrored(s, t);
    case (Tuple(x), Tuple(y)) => ItemsMirrored(x, y);
    case _ =>
  }

  lemma {:induction false} ItemsTransitive(a: seq<Py>, b: seq<Py>, c: seq<Py>)
    requires CompareItems(a, b) == Less && CompareItems(b, c) == Less
    ensures CompareItems(a, c) == Less
    decreases a
  {
    if a != [] {
      if a[0] == b[0] == c[0] {
        ItemsTransitive(a[1..], b[1..], c[1..]);
      } else if a[0] != b[0] && b[0] != c[0] {
        CompareTransitive(a[0], b[0], c[0]);
        CompareMirrored(a[0], c[0]);
      }
    }
  }

  /** `<` is transitive on all of these values, those with type errors elsewhere included. */
  lemma {:induction false} CompareTransitive(a: Py, b: Py, c: Py)
    requires Compare(a, b) == Less && Compare(b, c) == Less
    ensures Compare(a, c) == Less
    decreases a
  {
    match a
    case Int(_) =>
    case Str(_) => StringsTransitive(a.s, b.s, c.s);
    case Tuple(_) => ItemsTransitive(a.items, b.items, c.items);
  }

  // ------------------------------------------------------------------ versions and their keys

  /** A parsed version; `pre` holds the identifiers of the pre-release tag, if there is one. */
  datatype Version = Version(major: nat, minor: nat, patch: nat, pre: seq<string>)

  predicate IsDigit(c: char) {
    '0' <= c <= '9'
  }

  /** `p.isdigit()` */
  predicate Numeric(p: string) {
    p != "" && forall i | 0 <= i < |p| :: IsDigit(p[i])
  }

  /** `int(p)` */
  function Value(p: string): nat
    requires forall i | 0 <= i < |p| :: IsDigit(p[i])
  {
    if p == "" then 0 else
      var last := p[|p| - 1];
      assert IsDigit(last);
      10 * Value(p[..|p| - 1]) + (last as int - '0' as int)
  }

  function IdentifierKey(p: string): Py {
    if Numeric(p) then Tuple([Int(0), Int(Value(p)), Str("")]) else Tuple([Int(1), Int(0), Str(p)])
  }

  function IdentifierKeys(pre: seq<string>): seq<Py> {
    if pre == [] then [] else [IdentifierKey(pre[0])] + IdentifierKeys(pre[1..])
  }

  function ReleaseKey(v: Version): Py {
    Tuple([Int(v.major), Int(v.minor), Int(v.patch)])
  }

  /** `Version.key` */
  function Key(v: Version): Py {
    Tuple([ReleaseKey(v), Int(if v.pre == [] then 1 else 0), Tuple(IdentifierKeys(v.pre))])
  }

  /** `Version.major_key`: below 1.0.0 every minor version counts as a major one. */
  function MajorKey(v: Version): Py {
    if v.major > 0 then Tuple([Int(v.major)]) else Tuple([Int(0), Int(v.minor)])
  }

  // ------------------------------------------------------------------ precedence in SemVer 2.0.0, section 11

  /** 11.4.2: in ASCII order, where a proper prefix comes first. */
  ghost predicate AsciiLower(p: string, q: string) {
    exists k ::
      && SameText(p, q, k)
      && (if k == |p| then k < |q| else k < |q| && p[k] < q[k])
  }

  predicate SameText(p: string, q: string, k: int) {
    0 <= k <= |p| && k <= |q| && forall i | 0 <= i < k :: p[i] == q[i]
  }

  /** 11.4.1 to 11.4.3: numbers by value, below any identifier with letters or hyphens. */
  ghost predicate IdentifierLower(p: string, q: string) {
    if Numeric(p) then Numeric(q) ==> Value(p) < Value(q)
    else !Numeric(q) && AsciiLower(p, q)
  }

  predicate SameIdentifier(p: string, q: string) {
    p == q || (Numeric(p) && Numeric(q) && Value(p) == Value(q))
  }

  predicate SamePrefix(a: seq<string>, b: seq<string>, k: nat) {
    k <= |a| && k <= |b| && forall i | 0 <= i < k :: SameIdentifier(a[i], b[i])
  }

  /** 11.4 and 11.4.4: from left to right until a difference is found; the longer list is higher. */
  ghost predicate TagLower(a: seq<string>, b: seq<string>) {
    exists k ::
      && 0 <= k && SamePrefix(a, b, k)
      && (if k == |a| then k < |b| else k < |b| && IdentifierLower(a[k], b[k]))
  }

  predicate SameTag(a: seq<string>, b: seq<string>) {
    |a| == |b| && SamePrefix(a, b, |a|)
  }

  predicate ReleaseLower(v: Version, w: Version) {
    v.major < w.major || (v.major == w.major && (v.minor < w.minor || (v.minor == w.minor && v.patch < w.patch)))
  }

  predicate SameRelease(v: Version, w: Version) {
    v.major == w.major && v.minor == w.minor && v.patch == w.patch
  }

  /** 11.2 to 11.4: the three numbers, then the tag; a pre-release is below its release. */
  ghost predicate Lower(v: Version, w: Version) {
    || ReleaseLower(v, w)
    || (SameRelease(v, w) && v.pre != [] && (w.pre == [] || TagLower(v.pre, w.pre)))
  }

  predicate SamePrecedence(v: Version, w: Version) {
    SameRelease(v, w) && SameTag(v.pre, w.pre)
  }

  // ------------------------------------------------------------------ the keys follow it

  lemma AsciiStep(p: string, q: string)
    requires p != "" && q != "" && p[0] == q[0]
    ensures AsciiLower(p, q) <==> AsciiLower(p[1..], q[1..])
  {
    var r, t := p[1..], q[1..];
    if AsciiLower(p, q) {
      var k :| SameText(p, q, k) && (if k == |p| then k < |q| else k < |q| && p[k] < q[k]);
      assert SameText(r, t, k - 1);
    }
    if AsciiLower(r, t) {
      var k :| SameText(r, t, k) && (if k == |r| then k < |t| else k < |t| && r[k] < t[k]);
      assert SameText(p, q, k + 1) by {
        forall i | 0 <= i < k + 1 ensures p[i] == q[i] {
          assert i > 0 ==> p[i] == r[i - 1] && q[i] == t[i - 1];
        }
      }
    }
  }

  lemma {:induction false} StringsFollowAscii(p: string, q: string)
    ensures CompareStrings(p, q) == Less <==> AsciiLower(p, q)
  {
    if p != "" && q != "" && p[0] == q[0] {
      StringsFollowAscii(p[1..], q[1..]);
      AsciiStep(p, q);
    } else {
      assert SameText(p, q, 0);
    }
  }

  lemma IdentifiersFollow(p: string, q: string)
    ensures Compare(IdentifierKey(p), IdentifierKey(q)) == Less <==> IdentifierLower(p, q)
    ensures IdentifierKey(p) == IdentifierKey(q) <==> SameIdentifier(p, q)
    ensures Compare(IdentifierKey(p), IdentifierKey(q)) != TypeError
  {
    StringsFollowAscii(p, q);
    StringsMirrored(p, q);
    var a, b := IdentifierKey(p).items, IdentifierKey(q).items;
    Unrolled(a, b);
  }

  /** Three items are compared one after the other. */
  lemma Unrolled(a: seq<Py>, b: seq<Py>)
    requires |a| == |b| == 3
    ensures CompareItems(a, b) ==
              if a[0] != b[0] then Compare(a[0], b[0])
              else if a[1] != b[1] then Compare(a[1], b[1])
              else if a[2] != b[2] then Compare(a[2], b[2])
              else Equal
  {
    assert CompareItems(a, b) == if a[0] == b[0] then CompareItems(a[1..], b[1..]) else Compare(a[0], b[0]);
    var c, d := a[1..], b[1..];
    assert CompareItems(c, d) == if c[0] == d[0] then CompareItems(c[1..], d[1..]) else Compare(c[0], d[0]);
    var e, f := c[1..], d[1..];
    assert CompareItems(e, f) == if e[0] == f[0] then CompareItems(e[1..], f[1..]) else Compare(e[0], f[0]);
  }

  lemma TagStep(a: seq<string>, b: seq<string>)
    requires a != [] && b != []
    ensures TagLower(a, b) <==>
              IdentifierLower(a[0], b[0]) || (SameIdentifier(a[0], b[0]) && TagLower(a[1..], b[1..]))
    ensures SameTag(a, b) <==> SameIdentifier(a[0], b[0]) && SameTag(a[1..], b[1..])
  {
    var x, y := a[1..], b[1..];
    if TagLower(a, b) {
      var k :| 0 <= k && SamePrefix(a, b, k) && (if k == |a| then k < |b| else k < |b| && IdentifierLower(a[k], b[k]));
      if k > 0 {
        assert SameIdentifier(a[0], b[0]);
        assert SamePrefix(x, y, k - 1);
      }
    }
    if IdentifierLower(a[0], b[0]) {
      assert SamePrefix(a, b, 0);
    }
    if SameIdentifier(a[0], b[0]) && TagLower(x, y) {
      var k :| 0 <= k && SamePrefix(x, y, k) && (if k == |x| then k < |y| else k < |y| && IdentifierLower(x[k], y[k]));
      assert SamePrefix(a, b, k + 1) by {
        forall i | 0 <= i < k + 1 ensures SameIdentifier(a[i], b[i]) {
          assert i > 0 ==> a[i] == x[i - 1] && b[i] == y[i - 1];
        }
      }
    }
    if SameIdentifier(a[0], b[0]) && SameTag(x, y) {
      forall i | 0 <= i < |a| ensures SameIdentifier(a[i], b[i]) {
        assert i > 0 ==> a[i] == x[i - 1] && b[i] == y[i - 1];
      }
    }
    if SameTag(a, b) {
      assert forall i | 0 <= i < |x| :: x[i] == a[i + 1] && y[i] == b[i + 1];
    }
  }

  lemma {:induction false} TagsFollow(a: seq<string>, b: seq<string>)
    ensures CompareItems(IdentifierKeys(a), IdentifierKeys(b)) == Less <==> TagLower(a, b)
    ensures IdentifierKeys(a) == IdentifierKeys(b) <==> SameTag(a, b)
    ensures CompareItems(IdentifierKeys(a), IdentifierKeys(b)) != TypeError
  {
    var x, y := IdentifierKeys(a), IdentifierKeys(b);
    if a == [] || b == [] {
      assert SamePrefix(a, b, 0);
    } else {
      TagsFollow(a[1..], b[1..]);
      TagStep(a, b);
      IdentifiersFollow(a[0], b[0]);
      CompareMirrored(x[0], y[0]);
      assert x[1..] == IdentifierKeys(a[1..]) && y[1..] == IdentifierKeys(b[1..]);
      assert x == [x[0]] + x[1..] && y == [y[0]] + y[1..];
    }
  }

  lemma KeyCompared(v: Version, w: Version)
    ensures Compare(Key(v), Key(w)) ==
              if ReleaseKey(v) != ReleaseKey(w) then Compare(ReleaseKey(v), ReleaseKey(w))
              else if (v.pre == []) != (w.pre == []) then (if v.pre != [] then Less else Greater)
              else CompareItems(IdentifierKeys(v.pre), IdentifierKeys(w.pre))
    ensures Key(v) == Key(w) <==>
              ReleaseKey(v) == ReleaseKey(w) && (v.pre == [] <==> w.pre == []) && IdentifierKeys(v.pre) == IdentifierKeys(w.pre)
  {
    Unrolled(Key(v).items, Key(w).items);
    ItemsMirrored(IdentifierKeys(v.pre), IdentifierKeys(w.pre));
    assert Key(v) == Key(w) ==> Key(v).items[0] == Key(w).items[0] && Key(v).items[1] == Key(w).items[1]
                                && Key(v).items[2] == Key(w).items[2];
  }

  lemma ReleasesFollow(v: Version, w: Version)
    ensures Compare(ReleaseKey(v), ReleaseKey(w)) ==
              if ReleaseLower(v, w) then Less else if SameRelease(v, w) then Equal else Greater
    ensures ReleaseKey(v) == ReleaseKey(w) <==> SameRelease(v, w)
  {
    Unrolled(ReleaseKey(v).items, ReleaseKey(w).items);
    CompareMirrored(ReleaseKey(v), ReleaseKey(w));
  }

  /** The order of the keys is SemVer precedence: `<` on keys is "lower", equality is "the same
      precedence", and keys can always be compared. */
  lemma KeysFollowSemVer(v: Version, w: Version)
    ensures Compare(Key(v), Key(w)) == Less <==> Lower(v, w)
    ensures Key(v) == Key(w) <==> SamePrecedence(v, w)
    ensures Compare(Key(v), Key(w)) != TypeError
  {
    KeyCompared(v, w);
    ReleasesFollow(v, w);
    TagsFollow(v.pre, w.pre);
  }

  predicate AtMost(v: Version, w: Version) {
    Compare(Key(v), Key(w)) == Less || Compare(Key(v), Key(w)) == Equal
  }

  /** Precedence is a total preorder. */
  lemma PrecedenceIsTotalPreorder(u: Version, v: Version, w: Version)
    ensures AtMost(u, v) || AtMost(v, u)
    ensures AtMost(u, v) && AtMost(v, w) ==> AtMost(u, w)
    ensures AtMost(u, v) && AtMost(v, u) <==> SamePrecedence(u, v)
    ensures Lower(u, v) <==> !AtMost(v, u)
  {
    KeysFollowSemVer(u, v);
    CompareMirrored(Key(u), Key(v));
    CompareMirrored(Key(v), Key(w));
    if Compare(Key(u), Key(v)) == Less && Compare(Key(v), Key(w)) == Less {
      CompareTransitive(Key(u), Key(v), Key(w));
    }
  }

  /** The first item decides; if it is 0 on both sides, the minor version does. */
  lemma MajorKeysCompared(v: Version, w: Version)
    requires v.major < w.major || (v.major == w.major && (v.major > 0 || v.minor <= w.minor))
    ensures Compare(MajorKey(v), MajorKey(w)) == Less || Compare(MajorKey(v), MajorKey(w)) == Equal
  {
    var a, b := MajorKey(v).items, MajorKey(w).items;
    assert a[0] == Int(v.major) && b[0] == Int(w.major);
    assert CompareItems(a, b) == if a[0] == b[0] then CompareItems(a[1..], b[1..]) else Compare(a[0], b[0]);
    if v.major == w.major {
      if v.major == 0 {
        assert a[1..] == [Int(v.minor)] && b[1..] == [Int(w.minor)];
        assert CompareItems(a[1..], b[1..]) == if v.minor < w.minor then Less else Equal;
      } else {
        assert a[1..] == [] && b[1..] == [];
      }
    }
  }

  /** A higher version never has a lower major key. */
  lemma MajorKeyMonotone(v: Version, w: Version)
    requires AtMost(v, w)
    ensures Compare(MajorKey(v), MajorKey(w)) == Less || Compare(MajorKey(v), MajorKey(w)) == Equal
  {
    KeyCompared(v, w);
    ReleasesFollow(v, w);
    MajorKeysCompared(v, w);
  }

  // ------------------------------------------------------------------ freshness

  datatype Freshness = Freshness(versionsBehind: nat, majorsBehind: nat, score: real)

  predicate Above(a: Py, b: Py) {
    Compare(a, b) == Greater
  }

  /** The version of `latest` if it is a release, and no bound otherwise. */
  function Ceiling(latest: Option<Version>): Option<Version> {
    if latest.Some? && latest.value.pre == [] then latest else None
  }

  /** A stable version above the installed one and not above the ceiling. */
  predicate IsNewer(v: Option<Version>, current: Version, ceiling: Option<Version>) {
    v.Some? && v.value.pre == [] && Above(Key(v.value), Key(current))
    && !(ceiling.Some? && Above(Key(v.value), Key(ceiling.value)))
  }

  function NewerOf(versions: seq<Option<Version>>, current: Version, ceiling: Option<Version>): (newer: seq<Version>)
    ensures |newer| <= |versions|
  {
    if versions == [] then [] else
      var last := versions[|versions| - 1];
      NewerOf(versions[..|versions| - 1], current, ceiling) + if IsNewer(last, current, ceiling) then [last.value] else []
  }

  function MajorsOf(newer: seq<Version>, current: Version): set<Py> {
    set v | v in newer && Above(MajorKey(v), MajorKey(current)) :: MajorKey(v)
  }

  function Factor(behind: nat): real {
    if behind <= 2 then 1.0 else if behind <= 10 then 0.8 else 0.6
  }

  function Score(behind: nat, majors: nat): real {
    Factor(behind) / (1 + majors) as real
  }

  function FreshnessOf(versions: seq<Option<Version>>, current: Version, latest: Option<Version>): Freshness {
    var newer := NewerOf(versions, current, Ceiling(latest));
    var majors := MajorsOf(newer, current);
    Freshness(|newer|, |majors|, Score(|newer|, |majors|))
  }

  function ParsedAll(parse: string -> Option<Version>, texts: seq<string>): (r: seq<Option<Version>>)
    ensures |r| == |texts| && forall i | 0 <= i < |texts| :: r[i] == parse(texts[i])
  {
    seq(|texts|, i requires 0 <= i < |texts| => parse(texts[i]))
  }

  /** `freshness_of` for npm. `parse` stands for `parse_npm_version`. */
  method ComputeFreshness(parse: string -> Option<Version>, installed: string, latest: Option<string>, versions: seq<string>)
    returns (r: Option<Freshness>)
    ensures r == match parse(installed)
                 case None => None
                 case Some(current) =>
                   Some(FreshnessOf(ParsedAll(parse, versions), current,
                                    if latest == None || latest.value == "" then None else parse(latest.value)))
  {
    var current := parse(installed);
    if current == None {
      return None;
    }
    var parsedLatest: Option<Version> := None;
    if latest.Some? && latest.value != "" {
      parsedLatest := parse(latest.value);
    }
    var ceiling: Option<Version> := None;
    if parsedLatest.Some? && parsedLatest.value.pre == [] {
      ceiling := parsedLatest;
    }
    ghost var parsed := ParsedAll(parse, versions);
    var newer: seq<Version> := [];
    for i := 0 to |versions|
      invariant newer == NewerOf(parsed[..i], current.value, ceiling)
    {
      assert parsed[..i + 1][..i] == parsed[..i];
      var version := parse(versions[i]);
      if version == None || version.value.pre != [] || !Above(Key(version.value), Key(current.value)) {
        continue;
      }
      if ceiling.Some? && Above(Key(version.value), Key(ceiling.value)) {
        continue;
      }
      newer := newer + [version.value];
    }
    assert parsed[..|versions|] == parsed;
    var majors := set v | v in newer && Above(MajorKey(v), MajorKey(current.value)) :: MajorKey(v);
    var behind := |newer|;
    var factor := if behind <= 2 then 1.0 else if behind <= 10 then 0.8 else 0.6;
    r := Some(Freshness(behind, |majors|, factor / (1 + |majors|) as real));
  }

  lemma Within<T>(a: set<T>, b: set<T>)
    requires a <= b
    ensures |a| <= |b|
  {
    assert b == a + (b - a);
  }

  lemma {:induction false} MajorsFew(newer: seq<Version>, current: Version)
    ensures |MajorsOf(newer, current)| <= |newer|
  {
    if newer != [] {
      var front, last := newer[..|newer| - 1], newer[|newer| - 1];
      MajorsFew(front, current);
      var more := MajorsOf(front, current) + {MajorKey(last)};
      assert MajorsOf(newer, current) <= more;
      Within(MajorsOf(newer, current), more);
    }
  }

  lemma QuotientAntitone(a: real, a': real, d: real, d': real)
    requires 0.0 < a' <= a <= 1.0 && 1.0 <= d <= d'
    ensures a' / d' <= a / d
    ensures 0.0 < a / d <= 1.0
  {
    LargerNumerator(a', a, d');
    LargerDenominator(a, d, d');
    Share(a, d);
  }

  lemma ScoreAntitone(behind: nat, majors: nat, behind': nat, majors': nat)
    requires behind <= behind' && majors <= majors'
    ensures Score(behind', majors') <= Score(behind, majors)
    ensures 0.0 < Score(behind, majors) <= 1.0
  {
    QuotientAntitone(Factor(behind), Factor(behind'), (1 + majors) as real, (1 + majors') as real);
  }

  /** Never more majors than versions behind, and a score in (0, 1]. */
  lemma FreshnessInRange(versions: seq<Option<Version>>, current: Version, latest: Option<Version>)
    ensures var f := FreshnessOf(versions, current, latest);
      f.majorsBehind <= f.versionsBehind <= |versions| && 0.0 < f.score <= 1.0
  {
    var newer := NewerOf(versions, current, Ceiling(latest));
    MajorsFew(newer, current);
    ScoreAntitone(|newer|, |MajorsOf(newer, current)|, |newer|, |MajorsOf(newer, current)|);
  }

  // ------------------------------------------------------------------ monotonicity

  /** An earlier installed version or a higher ceiling makes no version any less new. */
  lemma NewerKept(v: Option<Version>, current: Version, ceiling: Option<Version>, current': Version, ceiling': Option<Version>)
    requires IsNewer(v, current, ceiling) && AtMost(current', current)
    requires ceiling' == None || (ceiling.Some? && AtMost(ceiling.value, ceiling'.value))
    ensures IsNewer(v, current', ceiling')
  {
    PrecedenceIsTotalPreorder(v.value, current', current);
    PrecedenceIsTotalPreorder(current', current, v.value);
    if ceiling'.Some? {
      PrecedenceIsTotalPreorder(v.value, ceiling.value, ceiling'.value);
      KeysMirrored(v.value, ceiling.value);
      KeysMirrored(v.value, ceiling'.value);
    }
    KeysMirrored(v.value, current);
    KeysMirrored(v.value, current');
    PrecedenceIsTotalPreorder(v.value, current', current);
  }

  lemma KeysMirrored(v: Version, w: Version)
    ensures Above(Key(v), Key(w)) <==> !AtMost(v, w)
    ensures Above(Key(v), Key(w)) <==> Compare(Key(w), Key(v)) == Less
  {
    CompareMirrored(Key(v), Key(w));
    KeysFollowSemVer(v, w);
  }

  lemma {:induction false} MoreNewer(versions: seq<Option<Version>>, current: Version, ceiling: Option<Version>,
                                     current': Version, ceiling': Option<Version>)
    requires AtMost(current', current)
    requires ceiling' == None || (ceiling.Some? && AtMost(ceiling.value, ceiling'.value))
    ensures |NewerOf(versions, current, ceiling)| <= |NewerOf(versions, current', ceiling')|
    ensures forall v | v in NewerOf(versions, current, ceiling) :: v in NewerOf(versions, current', ceiling')
  {
    if versions != [] {
      MoreNewer(versions[..|versions| - 1], current, ceiling, current', ceiling');
      var last := versions[|versions| - 1];
      if IsNewer(last, current, ceiling) {
        NewerKept(last, current, ceiling, current', ceiling');
      }
    }
  }

  lemma MajorKept(v: Version, current: Version, current': Version)
    requires AtMost(current', current) && Above(MajorKey(v), MajorKey(current))
    ensures Above(MajorKey(v), MajorKey(current'))
  {
    MajorKeyMonotone(current', current);
    CompareMirrored(MajorKey(v), MajorKey(current));
    CompareMirrored(MajorKey(v), MajorKey(current'));
    CompareMirrored(MajorKey(current'), MajorKey(current));
    if Compare(MajorKey(current'), MajorKey(current)) == Less {
      CompareTransitive(MajorKey(current'), MajorKey(current), MajorKey(v));
    }
  }

  lemma MoreMajors(newer: seq<Version>, current: Version, newer': seq<Version>, current': Version)
    requires AtMost(current', current) && forall v | v in newer :: v in newer'
    ensures |MajorsOf(newer, current)| <= |MajorsOf(newer', current')|
  {
    forall v | v in newer && Above(MajorKey(v), MajorKey(current)) ensures MajorKey(v) in MajorsOf(newer', current') {
      MajorKept(v, current, current');
    }
    Within(MajorsOf(newer, current), MajorsOf(newer', current'));
  }

  /** Upgrading the installed version never lowers the score, nor does it add versions or majors behind;
      a `latest` tag that moves up, or off any release, never raises it. */
  lemma FreshnessMonotone(versions: seq<Option<Version>>, current: Version, latest: Option<Version>,
                          current': Version, latest': Option<Version>)
    requires AtMost(current', current)
    requires Ceiling(latest') == None || (Ceiling(latest).Some? && AtMost(latest.value, latest'.value))
    ensures var f, f' := FreshnessOf(versions, current, latest), FreshnessOf(versions, current', latest');
      f'.score <= f.score && f.versionsBehind <= f'.versionsBehind && f.majorsBehind <= f'.majorsBehind
  {
    var newer := NewerOf(versions, current, Ceiling(latest));
    var newer' := NewerOf(versions, current', Ceiling(latest'));
    MoreNewer(versions, current, Ceiling(latest), current', Ceiling(latest'));
    MoreMajors(newer, current, newer', current');
    ScoreAntitone(|newer|, |MajorsOf(newer, current)|, |newer'|, |MajorsOf(newer', current')|);
  }

  lemma {:induction false} NewerAppends(a: seq<Option<Version>>, b: seq<Option<Version>>, current: Version, ceiling: Option<Version>)
    ensures NewerOf(a + b, current, ceiling) == NewerOf(a, current, ceiling) + NewerOf(b, current, ceiling)
  {
    if b == [] {
      assert a + b == a;
    } else {
      var n := |b| - 1;
      NewerAppends(a, b[..n], current, ceiling);
      assert (a + b)[..|a + b| - 1] == a + b[..n];
    }
  }

  /** Publishing one more version, anywhere in the list, never raises the score while `latest` stays.
      It counts as one more version behind exactly if it is a release above the installed version
      and not above `latest`. */
  lemma PublishingNeverRaises(a: seq<Option<Version>>, added: Option<Version>, b: seq<Option<Version>>,
                              current: Version, latest: Option<Version>)
    ensures var f, f' := FreshnessOf(a + b, current, latest), FreshnessOf(a + [added] + b, current, latest);
      && f'.score <= f.score && f.majorsBehind <= f'.majorsBehind
      && f'.versionsBehind == f.versionsBehind + if IsNewer(added, current, Ceiling(latest)) then 1 else 0
  {
    var ceiling := Ceiling(latest);
    NewerAppends(a, b, current, ceiling);
    NewerAppends(a + [added], b, current, ceiling);
    NewerAppends(a, [added], current, ceiling);
    assert [added][..0] == [] && NewerOf([], current, ceiling) == [];
    var newer, newer' := NewerOf(a + b, current, ceiling), NewerOf(a + [added] + b, current, ceiling);
    PrecedenceIsTotalPreorder(current, current, current);
    MoreMajors(newer, current, newer', current);
    ScoreAntitone(|newer|, |MajorsOf(newer, current)|, |newer'|, |MajorsOf(newer', current)|);
  }

  lemma {:induction false} NoneNewer(versions: seq<Option<Version>>, current: Version, ceiling: Option<Version>)
    requires ceiling.Some? && AtMost(ceiling.value, current)
    ensures NewerOf(versions, current, ceiling) == []
  {
    if versions != [] {
      NoneNewer(versions[..|versions| - 1], current, ceiling);
      var last := versions[|versions| - 1];
      if IsNewer(last, current, ceiling) {
        KeysMirrored(last.value, ceiling.value);
        KeysMirrored(last.value, current);
        PrecedenceIsTotalPreorder(last.value, ceiling.value, current);
      }
    }
  }

  /** Whoever has the latest release, or anything above it, is not behind. */
  lemma UpToDateIsFresh(versions: seq<Option<Version>>, current: Version, latest: Option<Version>)
    requires latest.Some? && latest.value.pre == [] && AtMost(latest.value, current)
    ensures FreshnessOf(versions, current, latest) == Freshness(0, 0, 1.0)
  {
    NoneNewer(versions, current, latest);
    assert MajorsOf([], current) == {};
  }

  // ------------------------------------------------------------------ what the numbers are

  /** A stable release above the installed version, and not above `latest` if that is a release. */
  ghost predicate CountsBehind(v: Option<Version>, current: Version, latest: Option<Version>) {
    && v.Some? && v.value.pre == [] && Lower(current, v.value)
    && !(latest.Some? && latest.value.pre == [] && Lower(latest.value, v.value))
  }

  lemma NewerMeansBehind(v: Option<Version>, current: Version, latest: Option<Version>)
    ensures IsNewer(v, current, Ceiling(latest)) <==> CountsBehind(v, current, latest)
  {
    if v.Some? {
      KeysMirrored(v.value, current);
      KeysFollowSemVer(current, v.value);
      if latest.Some? {
        KeysMirrored(v.value, latest.value);
        KeysFollowSemVer(latest.value, v.value);
      }
    }
  }

  /** The positions of the registry's list that count. */
  ghost function PlacesBehind(versions: seq<Option<Version>>, current: Version, latest: Option<Version>): set<nat> {
    set i: nat | i < |versions| && CountsBehind(versions[i], current, latest)
  }

  lemma PlacesGrow(front: seq<Option<Version>>, last: Option<Version>, current: Version, latest: Option<Version>)
    ensures PlacesBehind(front + [last], current, latest) ==
              PlacesBehind(front, current, latest) + if CountsBehind(last, current, latest) then {|front|} else {}
  {
    var longer := front + [last];
    assert forall i: nat | i < |front| :: longer[i] == front[i];
  }

  lemma {:induction false} NewerPlaces(versions: seq<Option<Version>>, current: Version, latest: Option<Version>)
    ensures |NewerOf(versions, current, Ceiling(latest))| == |PlacesBehind(versions, current, latest)|
    ensures forall v :: v in NewerOf(versions, current, Ceiling(latest)) <==>
                          exists i: nat :: i in PlacesBehind(versions, current, latest) && versions[i].value == v
  {
    if versions == [] {
      assert PlacesBehind(versions, current, latest) == {};
    } else {
      var front, last := versions[..|versions| - 1], versions[|versions| - 1];
      assert versions == front + [last];
      NewerPlaces(front, current, latest);
      NewerMeansBehind(last, current, latest);
      PlacesGrow(front, last, current, latest);
      NewerOneMore(front, last, current, latest);
    }
  }

  lemma NewerOneMore(front: seq<Option<Version>>, last: Option<Version>, current: Version, latest: Option<Version>)
    requires forall v :: v in NewerOf(front, current, Ceiling(latest)) <==>
                           exists i: nat :: i in PlacesBehind(front, current, latest) && front[i].value == v
    ensures var versions := front + [last];
      forall v :: v in NewerOf(versions, current, Ceiling(latest)) <==>
                    exists i: nat :: i in PlacesBehind(versions, current, latest) && versions[i].value == v
  {
    var versions := front + [last];
    assert versions[..|versions| - 1] == front;
    NewerMeansBehind(last, current, latest);
    PlacesGrow(front, last, current, latest);
    forall v
      ensures v in NewerOf(versions, current, Ceiling(latest)) <==>
                exists i: nat :: i in PlacesBehind(versions, current, latest) && versions[i].value == v
    {
      if i: nat :| i in PlacesBehind(front, current, latest) && front[i].value == v {
        assert versions[i].value == v && i in PlacesBehind(versions, current, latest);
      }
      if CountsBehind(last, current, latest) && last.value == v {
        assert versions[|front|].value == v && |front| in PlacesBehind(versions, current, latest);
      }
    }
  }

  /** The series a version belongs to: its major version, or below 1.0.0 its minor version. */
  datatype Series = Major(major: nat) | Minor(minor: nat)

  function SeriesOf(v: Version): Series {
    if v.major >= 1 then Major(v.major) else Minor(v.minor)
  }

  predicate LaterSeries(a: Series, b: Series) {
    match (a, b)
    case (Major(m), Major(n)) => m > n
    case (Major(_), Minor(_)) => true
    case (Minor(_), Major(_)) => false
    case (Minor(m), Minor(n)) => m > n
  }

  function SeriesKey(s: Series): Py {
    match s case Major(m) => Tuple([Int(m)]) case Minor(n) => Tuple([Int(0), Int(n)])
  }

  lemma KeyOfSeries(v: Version, w: Version)
    ensures MajorKey(v) == SeriesKey(SeriesOf(v))
    ensures Above(MajorKey(v), MajorKey(w)) <==> LaterSeries(SeriesOf(v), SeriesOf(w))
    ensures MajorKey(v) == MajorKey(w) <==> SeriesOf(v) == SeriesOf(w)
  {
    var a, b := MajorKey(v).items, MajorKey(w).items;
    assert CompareItems(a, b) == if a[0] == b[0] then CompareItems(a[1..], b[1..]) else Compare(a[0], b[0]);
    assert a[0] == Int(v.major) && b[0] == Int(w.major);
    if v.major == 0 && w.major == 0 {
      assert a[1..] == [Int(v.minor)] && b[1..] == [Int(w.minor)];
      assert CompareItems(a[1..], b[1..]) == if v.minor < w.minor then Less else if v.minor == w.minor then Equal else Greater;
      assert a[1] == Int(v.minor) && b[1] == Int(w.minor);
    } else if v.major == w.major {
      assert a == b && a[1..] == [] && b[1..] == [];
    }
  }

  /** The series of the versions that count, as far as they are later than the installed one's. */
  ghost function SeriesBehind(versions: seq<Option<Version>>, current: Version, latest: Option<Version>): set<Series> {
    set i: nat | i in PlacesBehind(versions, current, latest)
                 && LaterSeries(SeriesOf(versions[i].value), SeriesOf(current)) :: SeriesOf(versions[i].value)
  }

  ghost function Keys(series: set<Series>): set<Py> {
    set s | s in series :: SeriesKey(s)
  }

  lemma {:induction false} KeysCount(series: set<Series>)
    ensures |Keys(series)| == |series|
    decreases |series|
  {
    if series == {} {
      assert Keys(series) == {};
    } else {
      var s :| s in series;
      KeysCount(series - {s});
      assert Keys(series) == Keys(series - {s}) + {SeriesKey(s)};
      forall t | t in series - {s}
        ensures SeriesKey(t) != SeriesKey(s)
      {
        SeriesKeyInjective(s, t);
      }
    }
  }

  lemma SeriesKeyInjective(s: Series, t: Series)
    requires s != t
    ensures SeriesKey(s) != SeriesKey(t)
  {
    var a, b := SeriesKey(s).items, SeriesKey(t).items;
    assert a[0] != b[0] || |a| != |b| || a[1] != b[1];
  }

  lemma MajorsAreSeries(versions: seq<Option<Version>>, current: Version, latest: Option<Version>)
    ensures MajorsOf(NewerOf(versions, current, Ceiling(latest)), current) == Keys(SeriesBehind(versions, current, latest))
  {
    var newer := NewerOf(versions, current, Ceiling(latest));
    NewerPlaces(versions, current, latest);
    forall v | v in newer && Above(MajorKey(v), MajorKey(current))
      ensures MajorKey(v) in Keys(SeriesBehind(versions, current, latest))
    {
      KeyOfSeries(v, current);
      var i: nat :| i in PlacesBehind(versions, current, latest) && versions[i].value == v;
      assert SeriesOf(v) in SeriesBehind(versions, current, latest);
    }
    forall s | s in SeriesBehind(versions, current, latest)
      ensures SeriesKey(s) in MajorsOf(newer, current)
    {
      var i: nat :| i in PlacesBehind(versions, current, latest)
                    && LaterSeries(SeriesOf(versions[i].value), SeriesOf(current)) && SeriesOf(versions[i].value) == s;
      KeyOfSeries(versions[i].value, current);
      assert versions[i].value in newer;
    }
  }

  /** Versions behind are the positions that count, and majors behind the later series among them. */
  lemma BehindIsCounted(versions: seq<Option<Version>>, current: Version, latest: Option<Version>)
    ensures var f := FreshnessOf(versions, current, latest);
      && f.versionsBehind == |PlacesBehind(versions, current, latest)|
      && f.majorsBehind == |SeriesBehind(versions, current, latest)|
  {
    NewerPlaces(versions, current, latest);
    MajorsAreSeries(versions, current, latest);
    KeysCount(SeriesBehind(versions, current, latest));
  }

  lemma Restored(a: real, d: real)
    requires d > 0.0
    ensures a / d * d == a
  {
  }

  /** The score times one more than the majors behind is 1 up to two versions behind, 4/5 up to ten
      and 3/5 beyond. */
  lemma ScoreInNumbers(versions: seq<Option<Version>>, current: Version, latest: Option<Version>)
    ensures var f := FreshnessOf(versions, current, latest);
      f.score * (1 + f.majorsBehind) as real ==
        if f.versionsBehind < 3 then 1.0 else if f.versionsBehind < 11 then 4.0 / 5.0 else 3.0 / 5.0
  {
    var f := FreshnessOf(versions, current, latest);
    Restored(Factor(f.versionsBehind), (1 + f.majorsBehind) as real);
  }
}
