/** validation/rubric/report.py `_ranks` and `spearman`, over exact reals. */
module Ranks {
  import opened Collections
  import opened Wrappers

  // ------------------------------------------------------------------ counting over a permutation

  ghost function Count(s: seq<nat>, holds: nat -> bool): nat {
    if s == [] then 0 else Count(s[..|s| - 1], holds) + if holds(s[|s| - 1]) then 1 else 0
  }

  ghost function Indices(n: nat): (r: seq<nat>)
    ensures |r| == n && forall i | 0 <= i < n :: r[i] == i
  {
    seq(n, i => i)
  }

  ghost predicate Permutation(order: seq<nat>) {
    multiset(order) == multiset(Indices(|order|))
  }

  lemma {:induction false} CountConcat(a: seq<nat>, b: seq<nat>, holds: nat -> bool)
    ensures Count(a + b, holds) == Count(a, holds) + Count(b, holds)
  {
    if b == [] {
      assert a + b == a;
    } else {
      CountConcat(a, b[..|b| - 1], holds);
      assert (a + b)[..|a + b| - 1] == a + b[..|b| - 1];
    }
  }

  lemma CountOne(x: nat, holds: nat -> bool)
    ensures Count([x], holds) == if holds(x) then 1 else 0
  {
    assert [x][..0] == [];
  }

  lemma CountAround(front: seq<nat>, x: nat, back: seq<nat>, holds: nat -> bool)
    ensures Count(front + ([x] + back), holds) == Count(front + back, holds) + if holds(x) then 1 else 0
  {
    CountConcat(front, [x] + back, holds);
    CountConcat([x], back, holds);
    CountConcat(front, back, holds);
    CountOne(x, holds);
  }

  lemma Remove(b: seq<nat>, j: nat, holds: nat -> bool)
    requires j < |b|
    ensures Count(b, holds) == Count(b[..j] + b[j + 1..], holds) + if holds(b[j]) then 1 else 0
    ensures multiset(b[..j] + b[j + 1..]) == multiset(b) - multiset{b[j]}
  {
    SplitAt(b, j);
    CountAround(b[..j], b[j], b[j + 1..], holds);
    MultisetAround(b[..j], b[j], b[j + 1..]);
  }

  /** Counting does not depend on the order of the elements. */
  lemma {:induction false} CountPermuted(a: seq<nat>, b: seq<nat>, holds: nat -> bool)
    requires multiset(a) == multiset(b)
    ensures Count(a, holds) == Count(b, holds)
    decreases |a|
  {
    assert |a| == |multiset(a)| == |multiset(b)| == |b|;
    if a != [] {
      var x := a[|a| - 1];
      assert a == a[..|a| - 1] + [x] && x in multiset(b);
      var j :| 0 <= j < |b| && b[j] == x;
      Remove(b, j, holds);
      CountPermuted(a[..|a| - 1], b[..j] + b[j + 1..], holds);
    }
  }

  lemma {:induction false} CountAll(s: seq<nat>, holds: nat -> bool)
    requires forall i | 0 <= i < |s| :: holds(s[i])
    ensures Count(s, holds) == |s|
  {
    if s != [] {
      CountAll(s[..|s| - 1], holds);
    }
  }

  lemma {:induction false} CountNone(s: seq<nat>, holds: nat -> bool)
    requires forall i | 0 <= i < |s| :: !holds(s[i])
    ensures Count(s, holds) == 0
  {
    if s != [] {
      CountNone(s[..|s| - 1], holds);
    }
  }

  lemma CountThree(a: seq<nat>, b: seq<nat>, c: seq<nat>, holds: nat -> bool)
    requires forall i | 0 <= i < |a| :: !holds(a[i])
    requires forall i | 0 <= i < |b| :: holds(b[i])
    requires forall i | 0 <= i < |c| :: !holds(c[i])
    ensures Count(a + b + c, holds) == |b|
  {
    CountNone(a, holds);
    CountAll(b, holds);
    CountNone(c, holds);
    CountConcat(a, b, holds);
    CountConcat(a + b, c, holds);
  }

  /** With a stretch of hits between stretches of misses, the count is the length of the stretch. */
  lemma CountStretch(s: seq<nat>, low: nat, high: nat, holds: nat -> bool)
    requires low <= high <= |s|
    requires forall i | 0 <= i < |s| :: holds(s[i]) <==> low <= i < high
    ensures Count(s, holds) == high - low
  {
    CountThree(s[..low], s[low..high], s[high..], holds);
    assert s == s[..low] + s[low..high] + s[high..];
  }

  // ------------------------------------------------------------------ ranks

  function Smaller(values: seq<real>, v: real): (n: nat)
    ensures n <= |values|
  {
    if values == [] then 0 else Smaller(values[..|values| - 1], v) + if values[|values| - 1] < v then 1 else 0
  }

  function Equal(values: seq<real>, v: real): (n: nat)
    ensures n <= |values|
  {
    if values == [] then 0 else Equal(values[..|values| - 1], v) + if values[|values| - 1] == v then 1 else 0
  }

  /** The average of the places a value takes when the list is sorted, counted from 1. */
  function RankOf(values: seq<real>, v: real): real {
    Smaller(values, v) as real + (Equal(values, v) + 1) as real / 2.0
  }

  ghost function Less(values: seq<real>, v: real): nat -> bool {
    (i: nat) => i < |values| && values[i] < v
  }

  ghost function Same(values: seq<real>, v: real): nat -> bool {
    (i: nat) => i < |values| && values[i] == v
  }

  lemma {:induction false} CountIndices(values: seq<real>, v: real, n: nat)
    requires n <= |values|
    ensures Count(Indices(n), Less(values, v)) == Smaller(values[..n], v)
    ensures Count(Indices(n), Same(values, v)) == Equal(values[..n], v)
  {
    if n > 0 {
      CountIndices(values, v, n - 1);
      assert Indices(n)[..n - 1] == Indices(n - 1) && values[..n][..n - 1] == values[..n - 1];
    }
  }

  /** What argsort returns: a permutation under which the values do not fall. */
  ghost predicate Sorts(values: seq<real>, order: seq<nat>) {
    && |order| == |values| && Permutation(order)
    && (forall k | 0 <= k < |order| :: order[k] < |values|)
    && (forall j, k | 0 <= j < k < |order| :: values[order[j]] <= values[order[k]])
  }

  /** A maximal stretch of equal values in sorted order gives all of them the mean of its places. */
  lemma StretchRank(values: seq<real>, order: seq<nat>, i: nat, j: nat)
    requires Sorts(values, order) && i <= j < |order|
    requires values[order[i]] == values[order[j]]
    requires i > 0 ==> values[order[i - 1]] < values[order[i]]
    requires j + 1 < |order| ==> values[order[j + 1]] != values[order[i]]
    ensures RankOf(values, values[order[i]]) == (i + j) as real / 2.0 + 1.0
  {
    var v := values[order[i]];
    forall k | 0 <= k < |order|
      ensures Less(values, v)(order[k]) <==> 0 <= k < i
      ensures Same(values, v)(order[k]) <==> i <= k < j + 1
    {
      if k < i {
        assert values[order[k]] <= values[order[i - 1]];
      } else if k > j {
        assert values[order[j + 1]] <= values[order[k]] && v <= values[order[j + 1]];
      } else {
        assert v <= values[order[k]] <= values[order[j]];
      }
    }
    CountStretch(order, 0, i, Less(values, v));
    CountStretch(order, i, j + 1, Same(values, v));
    CountPermuted(order, Indices(|order|), Less(values, v));
    CountPermuted(order, Indices(|order|), Same(values, v));
    CountIndices(values, v, |values|);
    assert values[..|values|] == values;
  }

  lemma PermutationReaches(order: seq<nat>, m: nat) returns (k: nat)
    requires Permutation(order) && m < |order|
    ensures k < |order| && order[k] == m
  {
    assert Indices(|order|)[m] in multiset(order);
    k :| 0 <= k < |order| && order[k] == m;
  }

  /** `_ranks`, given the order argsort found: walk the stretches of equal values and give each
      member the stretch's mean place. Every rank is the counting definition. */
  method ComputeRanks(values: array<real>, order: array<nat>) returns (ranks: array<real>)
    requires Sorts(values[..], order[..])
    ensures fresh(ranks) && ranks.Length == values.Length
    ensures forall m | 0 <= m < values.Length :: ranks[m] == RankOf(values[..], values[m])
  {
    ranks := new real[values.Length];
    var i := 0;
    while i < values.Length
      invariant 0 <= i <= values.Length
      invariant 0 < i < values.Length ==> values[order[i - 1]] < values[order[i]]
      invariant forall k | 0 <= k < i :: ranks[order[k]] == RankOf(values[..], values[order[k]])
    {
      var j := i;
      while j + 1 < values.Length && values[order[j + 1]] == values[order[i]]
        invariant i <= j < values.Length
        invariant values[order[j]] == values[order[i]]
        decreases values.Length - j
      {
        j := j + 1;
      }
      StretchRank(values[..], order[..], i, j);
      var k := i;
      while k <= j
        invariant i <= k <= j + 1
        invariant forall n | 0 <= n < k :: ranks[order[n]] == RankOf(values[..], values[order[n]])
      {
        assert values[..][order[..][i]] <= values[..][order[..][k]] <= values[..][order[..][j]];
        ranks[order[k]] := (i + j) as real / 2.0 + 1.0;
        k := k + 1;
      }
      if j + 1 < values.Length {
        assert values[..][order[..][j]] <= values[..][order[..][j + 1]];
      }
      i := j + 1;
    }
    forall m | 0 <= m < values.Length
      ensures ranks[m] == RankOf(values[..], values[m])
    {
      var k := PermutationReaches(order[..], m);
    }
  }

  // ------------------------------------------------------------------ the sum of the ranks

  function RanksIn(values: seq<real>, some: seq<real>): (r: seq<real>)
    ensures |r| == |some| && forall i | 0 <= i < |some| :: r[i] == RankOf(values, some[i])
  {
    seq(|some|, i requires 0 <= i < |some| => RankOf(values, some[i]))
  }

  function RanksOf(values: seq<real>): seq<real> {
    RanksIn(values, values)
  }

  function Sum(s: seq<real>): real {
    if s == [] then 0.0 else Sum(s[..|s| - 1]) + s[|s| - 1]
  }

  ghost function Larger(values: seq<real>, v: real): nat {
    if values == [] then 0 else Larger(values[..|values| - 1], v) + if values[|values| - 1] > v then 1 else 0
  }

  /** Over the members of `some`: how many of `values` are smaller, larger, equal, in all. */
  ghost function AllSmaller(values: seq<real>, some: seq<real>): nat {
    if some == [] then 0 else AllSmaller(values, some[..|some| - 1]) + Smaller(values, some[|some| - 1])
  }

  ghost function AllLarger(values: seq<real>, some: seq<real>): nat {
    if some == [] then 0 else AllLarger(values, some[..|some| - 1]) + Larger(values, some[|some| - 1])
  }

  ghost function AllEqual(values: seq<real>, some: seq<real>): nat {
    if some == [] then 0 else AllEqual(values, some[..|some| - 1]) + Equal(values, some[|some| - 1])
  }

  lemma {:induction false} Trichotomy(values: seq<real>, v: real)
    ensures Smaller(values, v) + Larger(values, v) + Equal(values, v) == |values|
  {
    if values != [] {
      Trichotomy(values[..|values| - 1], v);
    }
  }

  lemma {:induction false} AllPairs(values: seq<real>, some: seq<real>)
    ensures AllSmaller(values, some) + AllLarger(values, some) + AllEqual(values, some) == |some| * |values|
  {
    if some != [] {
      AllPairs(values, some[..|some| - 1]);
      Trichotomy(values, some[|some| - 1]);
      assert |some| * |values| == (|some| - 1) * |values| + |values|;
    }
  }

  lemma {:induction false} OneMoreValue(values: seq<real>, v: real, some: seq<real>)
    ensures AllSmaller(values + [v], some) == AllSmaller(values, some) + Larger(some, v)
  {
    if some != [] {
      OneMoreValue(values, v, some[..|some| - 1]);
      assert (values + [v])[..|values|] == values;
    }
  }

  lemma {:induction false} NoValues(some: seq<real>)
    ensures AllSmaller([], some) == 0
  {
    if some != [] {
      NoValues(some[..|some| - 1]);
    }
  }

  /** Counting the smaller from one side counts the larger from the other. */
  lemma {:induction false} Exchange(values: seq<real>, some: seq<real>)
    ensures AllSmaller(values, some) == AllLarger(some, values)
  {
    if values == [] {
      NoValues(some);
    } else {
      var n := |values| - 1;
      Exchange(values[..n], some);
      OneMoreValue(values[..n], values[n], some);
      assert values[..n] + [values[n]] == values;
    }
  }

  lemma {:induction false} SumOfRanks(values: seq<real>, some: seq<real>)
    ensures Sum(RanksIn(values, some)) ==
              AllSmaller(values, some) as real + (AllEqual(values, some) + |some|) as real / 2.0
  {
    if some != [] {
      SumOfRanks(values, some[..|some| - 1]);
      assert RanksIn(values, some)[..|some| - 1] == RanksIn(values, some[..|some| - 1]);
    }
  }

  /** Ranks always sum to n (n + 1) / 2, ties or not. */
  lemma RanksSum(values: seq<real>)
    ensures Sum(RanksOf(values)) == (|values| * (|values| + 1)) as real / 2.0
  {
    SumOfRanks(values, values);
    AllPairs(values, values);
    Exchange(values, values);
  }

  // ------------------------------------------------------------------ only the order matters

  ghost predicate SameOrder(a: seq<real>, b: seq<real>) {
    && |a| == |b|
    && forall i, j | 0 <= i < |a| && 0 <= j < |a| :: a[i] < a[j] <==> b[i] < b[j]
  }

  lemma {:induction false} SameCounts(a: seq<real>, b: seq<real>, i: nat, n: nat)
    requires SameOrder(a, b) && i < |a| && n <= |a|
    ensures Smaller(a[..n], a[i]) == Smaller(b[..n], b[i])
    ensures Equal(a[..n], a[i]) == Equal(b[..n], b[i])
  {
    if n > 0 {
      SameCounts(a, b, i, n - 1);
      assert a[..n][..n - 1] == a[..n - 1] && b[..n][..n - 1] == b[..n - 1];
      assert a[n - 1] < a[i] <==> b[n - 1] < b[i];
      assert a[i] < a[n - 1] <==> b[i] < b[n - 1];
    }
  }

  /** Ranks, and so the rank correlation, are unchanged by any strictly increasing transform. */
  lemma RanksKeepOrder(a: seq<real>, b: seq<real>)
    requires SameOrder(a, b)
    ensures RanksOf(a) == RanksOf(b)
  {
    forall i | 0 <= i < |a|
      ensures RanksOf(a)[i] == RanksOf(b)[i]
    {
      SameCounts(a, b, i, |a|);
      assert a[..|a|] == a && b[..|b|] == b;
    }
  }

  lemma {:induction false} SmallerGrows(values: seq<real>, v: real, w: real)
    requires v < w
    ensures Smaller(values, v) + Equal(values, v) <= Smaller(values, w)
  {
    if values != [] {
      SmallerGrows(values[..|values| - 1], v, w);
    }
  }

  lemma {:induction false} EqualToItself(values: seq<real>, i: nat)
    requires i < |values|
    ensures Equal(values, values[i]) >= 1
  {
    if i < |values| - 1 {
      EqualToItself(values[..|values| - 1], i);
    }
  }

  /** Equal values share a rank and a larger value has a larger one. */
  lemma RanksFollowValues(values: seq<real>, i: nat, j: nat)
    requires i < |values| && j < |values|
    ensures values[i] < values[j] <==> RanksOf(values)[i] < RanksOf(values)[j]
  {
    EqualToItself(values, i);
    EqualToItself(values, j);
    if values[i] < values[j] {
      SmallerGrows(values, values[i], values[j]);
    } else if values[j] < values[i] {
      SmallerGrows(values, values[j], values[i]);
    }
  }

  // ------------------------------------------------------------------ Spearman's correlation

  function Mean(s: seq<real>): real
    requires s != []
  {
    Sum(s) / |s| as real
  }

  function Deviations(s: seq<real>): (d: seq<real>)
    requires s != []
    ensures |d| == |s| && forall i | 0 <= i < |s| :: d[i] == s[i] - Mean(s)
  {
    seq(|s|, i requires 0 <= i < |s| => s[i] - Mean(s))
  }

  function Dot(a: seq<real>, b: seq<real>): real
    requires |a| == |b|
  {
    if a == [] then 0.0 else Dot(a[..|a| - 1], b[..|b| - 1]) + a[|a| - 1] * b[|b| - 1]
  }

  /** The parts of the correlation cov / sqrt(varA * varB), each times the number of pairs. */
  datatype Rho = Rho(cov: real, varA: real, varB: real)

  function RhoOf(ra: seq<real>, rb: seq<real>): Rho
    requires |ra| == |rb| && ra != []
  {
    var da, db := Deviations(ra), Deviations(rb);
    Rho(Dot(da, db), Dot(da, da), Dot(db, db))
  }

  function Spearman(x: seq<real>, y: seq<real>): Option<Rho>
    requires |x| == |y|
  {
    if |x| < 3 then None else
      var rho := RhoOf(RanksOf(x), RanksOf(y));
      if rho.varA == 0.0 || rho.varB == 0.0 then None else Some(rho)
  }

  lemma SquareGrows(p: real, q: real)
    requires 0.0 <= p < q
    ensures p * p < q * q
  {
    assert q * (q - p) > 0.0 && p * (q - p) >= 0.0;
  }

  lemma SquareOrder(p: real, q: real)
    requires p >= 0.0 && p * p >= q * q
    ensures p >= q
  {
    if q > p {
      SquareGrows(p, q);
    }
  }

  /** One more pair of coordinates keeps the inequality. */
  lemma CauchyStep(a: real, b: real, c: real, x: real, y: real)
    requires a >= 0.0 && b >= 0.0 && c * c <= a * b
    ensures (c + x * y) * (c + x * y) <= (a + x * x) * (b + y * y)
  {
    var u, v, w := a * (y * y), b * (x * x), x * y;
    assert u >= 0.0 && v >= 0.0;
    assert u * v == (a * b) * (w * w);
    assert (c * c) * (w * w) <= (a * b) * (w * w);
    assert (u + v) * (u + v) == (u - v) * (u - v) + 4.0 * (u * v);
    assert (2.0 * (c * w)) * (2.0 * (c * w)) == 4.0 * ((c * c) * (w * w));
    SquareOrder(u + v, 2.0 * (c * w));
    assert (c + w) * (c + w) == c * c + 2.0 * (c * w) + w * w;
    assert (a + x * x) * (b + y * y) == a * b + u + v + w * w;
  }

  lemma {:induction false} CauchySchwarz(a: seq<real>, b: seq<real>)
    requires |a| == |b|
    ensures Dot(a, a) >= 0.0 && Dot(b, b) >= 0.0
    ensures Dot(a, b) * Dot(a, b) <= Dot(a, a) * Dot(b, b)
  {
    if a != [] {
      var n := |a| - 1;
      CauchySchwarz(a[..n], b[..n]);
      var x, y := a[n], b[n];
      var aa, bb, ab := Dot(a[..n], a[..n]), Dot(b[..n], b[..n]), Dot(a[..n], b[..n]);
      CauchyStep(aa, bb, ab, x, y);
      assert Dot(a, a) == aa + x * x && Dot(b, b) == bb + y * y && Dot(a, b) == ab + x * y;
    }
  }

  ghost predicate AllZero(d: seq<real>) {
    forall i | 0 <= i < |d| :: d[i] == 0.0
  }

  lemma {:induction false} ZeroDot(d: seq<real>)
    ensures Dot(d, d) >= 0.0
    ensures Dot(d, d) == 0.0 <==> AllZero(d)
  {
    if d != [] {
      var n := |d| - 1;
      ZeroDot(d[..n]);
      var square := Squared(d[n]);
      OneMoreSquare(Dot(d[..n], d[..n]), d[n], square, Dot(d, d));
      assert AllZero(d) <==> AllZero(d[..n]) && d[n] == 0.0 by {
        assert forall i | 0 <= i < n :: d[..n][i] == d[i];
      }
    }
  }

  lemma OneMoreSquare(a: real, x: real, square: real, total: real)
    requires a >= 0.0 && total == a + square
    requires square >= 0.0 && (square == 0.0 <==> x == 0.0)
    ensures total >= 0.0
    ensures total == 0.0 <==> a == 0.0 && x == 0.0
  {
  }

  lemma Squared(x: real) returns (square: real)
    ensures square == x * x && square >= 0.0
    ensures square == 0.0 <==> x == 0.0
  {
    square := x * x;
    if x < 0.0 {
      SquareGrows(0.0, -x);
    } else if x > 0.0 {
      SquareGrows(0.0, x);
    }
  }

  lemma {:induction false} ConstantSum(s: seq<real>, c: real)
    requires forall i | 0 <= i < |s| :: s[i] == c
    ensures Sum(s) == |s| as real * c
  {
    if s != [] {
      ConstantSum(s[..|s| - 1], c);
    }
  }

  ghost predicate Constant(s: seq<real>) {
    forall i, j | 0 <= i < |s| && 0 <= j < |s| :: s[i] == s[j]
  }

  /** The ranks have no variance exactly when the values are all the same. */
  lemma VarianceOfRanks(values: seq<real>)
    requires values != []
    ensures var d := Deviations(RanksOf(values)); Dot(d, d) == 0.0 <==> Constant(values)
  {
    var ranks := RanksOf(values);
    ZeroDot(Deviations(ranks));
    ZeroDeviations(ranks);
    if Constant(values) || Constant(ranks) {
      forall i, j | 0 <= i < |values| && 0 <= j < |values|
        ensures values[i] == values[j] <==> ranks[i] == ranks[j]
      {
        RanksFollowValues(values, i, j);
        RanksFollowValues(values, j, i);
      }
    }
  }

  lemma ZeroDeviations(s: seq<real>)
    requires s != []
    ensures AllZero(Deviations(s)) <==> Constant(s)
  {
    if Constant(s) {
      ConstantSum(s, s[0]);
      assert Mean(s) == s[0];
    }
    if AllZero(Deviations(s)) {
      forall i | 0 <= i < |s|
        ensures s[i] == Mean(s)
      {
        assert Deviations(s)[i] == 0.0;
      }
    }
  }

  /** Spearman's correlation exists exactly from three pairs on with neither list constant. */
  lemma SpearmanExists(x: seq<real>, y: seq<real>)
    requires |x| == |y|
    ensures Spearman(x, y).None? <==> |x| < 3 || Constant(x) || Constant(y)
  {
    if |x| >= 3 {
      VarianceOfRanks(x);
      VarianceOfRanks(y);
    }
  }

  /** The square of cov / sqrt(varA * varB) is at most 1. */
  predicate AtMostOne(rho: Rho) {
    rho.cov * rho.cov <= rho.varA * rho.varB
  }

  lemma DotsBounded(a: seq<real>, b: seq<real>)
    requires |a| == |b|
    ensures Dot(a, a) >= 0.0 && Dot(b, b) >= 0.0 && AtMostOne(Rho(Dot(a, b), Dot(a, a), Dot(b, b)))
  {
    CauchySchwarz(a, b);
  }

  lemma RhoBounded(ra: seq<real>, rb: seq<real>)
    requires |ra| == |rb| && ra != []
    ensures RhoOf(ra, rb).varA >= 0.0 && RhoOf(ra, rb).varB >= 0.0 && AtMostOne(RhoOf(ra, rb))
  {
    DotsBounded(Deviations(ra), Deviations(rb));
  }

  /** Where it exists its square is at most 1. */
  lemma SpearmanBounded(x: seq<real>, y: seq<real>)
    requires |x| == |y| && Spearman(x, y).Some?
    ensures var rho := Spearman(x, y).value; rho.varA > 0.0 && rho.varB > 0.0 && AtMostOne(rho)
  {
    RhoBounded(RanksOf(x), RanksOf(y));
  }

  /** Strictly increasing transforms of either list do not change it. */
  lemma SpearmanKept(x: seq<real>, y: seq<real>, x': seq<real>, y': seq<real>)
    requires |x| == |y| && SameOrder(x, x') && SameOrder(y, y')
    ensures Spearman(x, y) == Spearman(x', y')
  {
    RanksKeepOrder(x, x');
    RanksKeepOrder(y, y');
  }

  // ------------------------------------------------------------------ its value

  function Products(a: seq<real>, b: seq<real>): (p: seq<real>)
    requires |a| == |b|
    ensures |p| == |a| && forall i | 0 <= i < |p| :: p[i] == a[i] * b[i]
  {
    seq(|a|, i requires 0 <= i < |a| => a[i] * b[i])
  }

  ghost predicate AreProducts(p: seq<real>, a: seq<real>, b: seq<real>) {
    |a| == |b| == |p| && forall i | 0 <= i < |p| :: p[i] == a[i] * b[i]
  }

  lemma {:induction false} DotIsSum(p: seq<real>, a: seq<real>, b: seq<real>)
    requires AreProducts(p, a, b)
    ensures Dot(a, b) == Sum(p)
  {
    if p != [] {
      var n := |p| - 1;
      DotIsSum(p[..n], a[..n], b[..n]);
    }
  }

  ghost predicate Differences(d: seq<real>, s: seq<real>, m: seq<real>) {
    |d| == |s| == |m| && forall i | 0 <= i < |s| :: d[i] == s[i] - m[i]
  }

  lemma MinusTimes(d: real, s: real, m: real, y: real)
    requires d == s - m
    ensures d * y == s * y - m * y
  {
  }

  lemma {:induction false} DotMinus(d: seq<real>, s: seq<real>, m: seq<real>, b: seq<real>)
    requires Differences(d, s, m) && |b| == |s|
    ensures Dot(d, b) == Dot(s, b) - Dot(m, b)
  {
    if d != [] {
      var n := |d| - 1;
      DotMinus(d[..n], s[..n], m[..n], b[..n]);
      MinusTimes(d[n], s[n], m[n], b[n]);
    }
  }

  lemma {:induction false} DotCommutes(a: seq<real>, b: seq<real>)
    requires |a| == |b|
    ensures Dot(a, b) == Dot(b, a)
  {
    if a != [] {
      DotCommutes(a[..|a| - 1], b[..|b| - 1]);
    }
  }

  lemma TimesPlus(c: real, s: real, y: real)
    ensures c * (s + y) == c * s + c * y
  {
  }

  lemma {:induction false} DotConstant(c: real, m: seq<real>, b: seq<real>)
    requires |m| == |b| && forall i | 0 <= i < |m| :: m[i] == c
    ensures Dot(m, b) == c * Sum(b)
  {
    if m != [] {
      var n := |m| - 1;
      DotConstant(c, m[..n], b[..n]);
      TimesPlus(c, Sum(b[..n]), b[n]);
    }
  }

  function Repeated(c: real, n: nat): (s: seq<real>)
    ensures |s| == n && forall i | 0 <= i < n :: s[i] == c
  {
    seq(n, i => c)
  }

  ghost predicate ShiftedBy(d: seq<real>, s: seq<real>, m: real) {
    |d| == |s| && forall i | 0 <= i < |s| :: d[i] == s[i] - m
  }

  lemma DotShifted(d: seq<real>, s: seq<real>, m: real, b: seq<real>)
    requires ShiftedBy(d, s, m) && |b| == |s|
    ensures Dot(d, b) == Dot(s, b) - Dot(Repeated(m, |s|), b)
  {
    DotMinus(d, s, Repeated(m, |s|), b);
  }

  lemma {:induction false} SumMinus(d: seq<real>, s: seq<real>, m: seq<real>)
    requires Differences(d, s, m)
    ensures Sum(d) == Sum(s) - Sum(m)
  {
    if d != [] {
      SumMinus(d[..|d| - 1], s[..|d| - 1], m[..|d| - 1]);
    }
  }

  lemma MeanTimes(sum: real, n: real)
    requires n > 0.0
    ensures n * (sum / n) == sum
  {
  }

  /** Deviations from the mean cancel out. */
  lemma DeviationsCancel(s: seq<real>)
    requires s != []
    ensures Sum(Deviations(s)) == 0.0
  {
    SumMinus(Deviations(s), s, Repeated(Mean(s), |s|));
    ConstantSum(Repeated(Mean(s), |s|), Mean(s));
    MeanTimes(Sum(s), |s| as real);
  }

  lemma DotVanishes(m: real, b: seq<real>)
    requires Sum(b) == 0.0
    ensures Dot(Repeated(m, |b|), b) == 0.0
  {
    DotConstant(m, Repeated(m, |b|), b);
  }

  lemma CovarianceIsDot(a: seq<real>, b: seq<real>, da: seq<real>, db: seq<real>, m: real)
    requires |a| == |b| && ShiftedBy(da, a, m) && ShiftedBy(db, b, m) && Sum(da) == 0.0
    ensures Dot(da, db) == Dot(a, b) - Dot(Repeated(m, |b|), b)
  {
    DotShifted(db, b, m, da);
    DotVanishes(m, da);
    DotCommutes(da, db);
    DotCommutes(b, da);
    DotShifted(da, a, m, b);
  }

  lemma Quotient(m: real, n: real, sum: real)
    requires n > 0.0 && sum == n * m
    ensures sum / n == m
  {
  }

  /** `m` is the mean of the ranks 1 to n. */
  predicate IsMeanRank(m: real, n: nat) {
    m + m == n as real + 1.0
  }

  lemma MeanIs(s: seq<real>, m: real)
    requires s != [] && Sum(s) == |s| as real * m
    ensures Mean(s) == m
  {
    Quotient(m, |s| as real, Sum(s));
  }

  lemma RealProduct(k: int, m: real)
    requires m + m == k as real + 1.0
    ensures (k * (k + 1)) as real / 2.0 == k as real * m
  {
    assert (k * (k + 1)) as real == k as real * (k + 1) as real;
    assert (k + 1) as real == m + m;
    assert k as real * (m + m) == k as real * m + k as real * m;
  }

  lemma SumIsMeanTimes(values: seq<real>, m: real)
    requires IsMeanRank(m, |values|)
    ensures Sum(RanksOf(values)) == |values| as real * m
  {
    RanksSum(values);
    RealProduct(|values|, m);
  }

  lemma MeanRank(values: seq<real>, m: real)
    requires values != [] && IsMeanRank(m, |values|)
    ensures Mean(RanksOf(values)) == m
  {
    SumIsMeanTimes(values, m);
    MeanIs(RanksOf(values), m);
  }

  lemma SwapFactor(m: real, n: real, total: real)
    requires total == n * m
    ensures m * total == n * (m * m)
  {
  }

  lemma DotMean(s: seq<real>, m: real, n: real, k: real)
    requires n == |s| as real && Sum(s) == n * m && k == n * (m * m)
    ensures Dot(Repeated(m, |s|), s) == k
  {
    SwapFactor(m, n, Sum(s));
    DotTotal(m, s, Sum(s), k);
  }

  lemma DotTotal(m: real, s: seq<real>, total: real, k: real)
    requires total == Sum(s) && k == m * total
    ensures Dot(Repeated(m, |s|), s) == k
  {
    DotConstant(m, Repeated(m, |s|), s);
  }

  lemma RankDeviations(values: seq<real>, m: real)
    requires values != [] && IsMeanRank(m, |values|)
    ensures ShiftedBy(Deviations(RanksOf(values)), RanksOf(values), m)
  {
    MeanRank(values, m);
  }

  lemma CovarianceFrom(rx: seq<real>, ry: seq<real>, m: real, k: real)
    requires |rx| == |ry| && rx != []
    requires ShiftedBy(Deviations(rx), rx, m) && ShiftedBy(Deviations(ry), ry, m)
    requires Dot(Repeated(m, |ry|), ry) == k
    ensures Dot(Deviations(rx), Deviations(ry)) == Sum(Products(rx, ry)) - k
  {
    DotIsSum(Products(rx, ry), rx, ry);
    DeviationsCancel(rx);
    CovarianceIsDot(rx, ry, Deviations(rx), Deviations(ry), m);
  }

  /** The sum of the products of the pairs' ranks, less n times the square of their mean. */
  ghost predicate InRanks(value: real, x: seq<real>, y: seq<real>, m: real)
    requires |x| == |y|
  {
    value == Sum(Products(RanksOf(x), RanksOf(y))) - |x| as real * (m * m)
  }

  lemma CovarianceOfRanks(x: seq<real>, y: seq<real>, m: real)
    requires |x| == |y| && x != [] && IsMeanRank(m, |x|)
    ensures InRanks(Dot(Deviations(RanksOf(x)), Deviations(RanksOf(y))), x, y, m)
  {
    RankDeviations(x, m);
    RankDeviations(y, m);
    SumIsMeanTimes(y, m);
    DotMean(RanksOf(y), m, |x| as real, |x| as real * (m * m));
    CovarianceFrom(RanksOf(x), RanksOf(y), m, |x| as real * (m * m));
  }

  /** Covariance and variances from the ranks alone, for the mean rank m = (n + 1) / 2. */
  lemma SpearmanInRanks(x: seq<real>, y: seq<real>, m: real)
    requires |x| == |y| && Spearman(x, y).Some? && m + m == |x| as real + 1.0
    ensures var rho := Spearman(x, y).value;
      InRanks(rho.cov, x, y, m) && InRanks(rho.varA, x, x, m) && InRanks(rho.varB, y, y, m)
  {
    CovarianceOfRanks(x, y, m);
    CovarianceOfRanks(x, x, m);
    CovarianceOfRanks(y, y, m);
  }

  /** Lists in the same order have the correlation 1. */
  lemma SameOrderIsOne(x: seq<real>, y: seq<real>)
    requires SameOrder(x, y) && Spearman(x, y).Some?
    ensures var rho := Spearman(x, y).value; rho.cov == rho.varA == rho.varB && rho.cov > 0.0
  {
    RanksKeepOrder(x, y);
    SpearmanBounded(x, y);
  }

  ghost predicate ReverseOrder(a: seq<real>, b: seq<real>) {
    && |a| == |b|
    && forall i, j | 0 <= i < |a| && 0 <= j < |a| :: a[i] < a[j] <==> b[j] < b[i]
  }

  lemma {:induction false} ReverseCounts(a: seq<real>, b: seq<real>, i: nat, n: nat)
    requires ReverseOrder(a, b) && i < |a| && n <= |a|
    ensures Smaller(b[..n], b[i]) == Larger(a[..n], a[i])
    ensures Equal(a[..n], a[i]) == Equal(b[..n], b[i])
  {
    if n > 0 {
      ReverseCounts(a, b, i, n - 1);
      assert a[..n][..n - 1] == a[..n - 1] && b[..n][..n - 1] == b[..n - 1];
      assert a[n - 1] < a[i] <==> b[i] < b[n - 1];
      assert a[i] < a[n - 1] <==> b[n - 1] < b[i];
    }
  }

  lemma ReverseRank(a: seq<real>, b: seq<real>, i: nat)
    requires ReverseOrder(a, b) && i < |a|
    ensures RankOf(b, b[i]) == |a| as real + 1.0 - RankOf(a, a[i])
  {
    ReverseCounts(a, b, i, |a|);
    assert a[..|a|] == a && b[..|b|] == b;
    Trichotomy(a, a[i]);
  }

  ghost predicate Negated(a: seq<real>, b: seq<real>) {
    |a| == |b| && forall i | 0 <= i < |a| :: b[i] == -a[i]
  }

  lemma {:induction false} DotNegated(a: seq<real>, b: seq<real>)
    requires Negated(a, b)
    ensures Dot(a, b) == -Dot(a, a) && Dot(b, b) == Dot(a, a)
  {
    if a != [] {
      var n := |a| - 1;
      DotNegated(a[..n], b[..n]);
      assert a[n] * b[n] == -(a[n] * a[n]) && b[n] * b[n] == a[n] * a[n];
    }
  }

  lemma ReverseDeviations(x: seq<real>, y: seq<real>)
    requires ReverseOrder(x, y) && x != []
    ensures Negated(Deviations(RanksOf(x)), Deviations(RanksOf(y)))
  {
    var m := (|x| as real + 1.0) / 2.0;
    RankDeviations(x, m);
    RankDeviations(y, m);
    forall i | 0 <= i < |x|
      ensures Deviations(RanksOf(y))[i] == -Deviations(RanksOf(x))[i]
    {
      ReverseRank(x, y, i);
    }
  }

  /** Lists in reverse order have the correlation -1. */
  lemma ReverseOrderIsMinusOne(x: seq<real>, y: seq<real>)
    requires ReverseOrder(x, y) && Spearman(x, y).Some?
    ensures var rho := Spearman(x, y).value; rho.cov == -rho.varA && rho.varA == rho.varB && rho.cov < 0.0
  {
    ReverseDeviations(x, y);
    DotNegated(Deviations(RanksOf(x)), Deviations(RanksOf(y)));
    SpearmanBounded(x, y);
  }
}
