/** validation/phishing/report.py `confusion` and `roc`, against signals_experiment.py `cliffs_delta`.
    Rates and areas are exact reals. */
module Roc {
  import opened Reals
  import opened Sorting
  import opened Wrappers

  // ------------------------------------------------------------------ counting

  function CountGe(s: seq<int>, t: int): (n: nat)
    ensures n <= |s|
  {
    if s == [] then 0 else CountGe(s[..|s| - 1], t) + if s[|s| - 1] >= t then 1 else 0
  }

  function CountEq(s: seq<int>, t: int): (n: nat)
    ensures n <= |s|
  {
    if s == [] then 0 else CountEq(s[..|s| - 1], t) + if s[|s| - 1] == t then 1 else 0
  }

  /** The scores carrying label `y`, in order. */
  function Labelled(scores: seq<int>, labels: seq<int>, y: int): seq<int>
    requires |scores| == |labels|
  {
    if scores == [] then [] else
      var n := |scores| - 1;
      Labelled(scores[..n], labels[..n], y) + if labels[n] == y then [scores[n]] else []
  }

  /** `sum(1 for s, y in zip(scores, labels) if ... and y == ...)`, on either side of the threshold. */
  function Tally(scores: seq<int>, labels: seq<int>, threshold: int, reached: bool, y: int): nat
    requires |scores| == |labels|
  {
    if scores == [] then 0 else
      var n := |scores| - 1;
      Tally(scores[..n], labels[..n], threshold, reached, y) +
      if (scores[n] >= threshold) == reached && labels[n] == y then 1 else 0
  }

  datatype Confusion = Confusion(tp: nat, fp: nat, fn: nat, tn: nat)

  function Counts(scores: seq<int>, labels: seq<int>, threshold: int): Confusion
    requires |scores| == |labels|
  {
    Confusion(Tally(scores, labels, threshold, true, 1), Tally(scores, labels, threshold, true, 0),
              Tally(scores, labels, threshold, false, 1), Tally(scores, labels, threshold, false, 0))
  }

  lemma {:induction false} TallyOfClass(scores: seq<int>, labels: seq<int>, threshold: int, y: int)
    requires |scores| == |labels|
    ensures var s := Labelled(scores, labels, y);
      && Tally(scores, labels, threshold, true, y) == CountGe(s, threshold)
      && Tally(scores, labels, threshold, false, y) == |s| - CountGe(s, threshold)
  {
    if scores != [] {
      var n := |scores| - 1;
      TallyOfClass(scores[..n], labels[..n], threshold, y);
      var s := Labelled(scores[..n], labels[..n], y);
      assert (s + [scores[n]])[..|s|] == s && s + [] == s;
    }
  }

  lemma CountsByClass(scores: seq<int>, labels: seq<int>, threshold: int)
    requires |scores| == |labels|
    ensures var c, pos, neg := Counts(scores, labels, threshold), Labelled(scores, labels, 1), Labelled(scores, labels, 0);
      c == Confusion(CountGe(pos, threshold), CountGe(neg, threshold),
                     |pos| - CountGe(pos, threshold), |neg| - CountGe(neg, threshold))
  {
    TallyOfClass(scores, labels, threshold, 1);
    TallyOfClass(scores, labels, threshold, 0);
  }

  function Rate(hits: nat, misses: nat): Option<real> {
    if hits + misses > 0 then Some(hits as real / (hits + misses) as real) else None
  }

  function OrZero(rate: Option<real>): real {
    match rate case None => 0.0 case Some(r) => r
  }

  // ------------------------------------------------------------------ the curve

  datatype Point = Point(fpr: real, recall: real)

  /** `(fpr or 0.0, recall or 0.0)` at one threshold. */
  function PointAt(scores: seq<int>, labels: seq<int>, threshold: int): Point
    requires |scores| == |labels|
  {
    var c := Counts(scores, labels, threshold);
    Point(OrZero(Rate(c.fp, c.tn)), OrZero(Rate(c.tp, c.fn)))
  }

  const THRESHOLDS: nat := 102

  function Points(scores: seq<int>, labels: seq<int>): seq<Point>
    requires |scores| == |labels|
  {
    seq(THRESHOLDS, t => PointAt(scores, labels, t))
  }

  /** Python compares tuples of floats lexicographically. */
  function Lex(): (Point, Point) -> bool {
    (p: Point, q: Point) => p.fpr < q.fpr || (p.fpr == q.fpr && p.recall <= q.recall)
  }

  function Curve(scores: seq<int>, labels: seq<int>): seq<Point>
    requires |scores| == |labels|
  {
    [Point(0.0, 0.0)] + Sorted(Lex(), Points(scores, labels)) + [Point(1.0, 1.0)]
  }

  function Trapezoid(p: Point, q: Point): real {
    (q.fpr - p.fpr) * (p.recall + q.recall) / 2.0
  }

  function Trapezoids(curve: seq<Point>): seq<real> {
    seq(if |curve| > 0 then |curve| - 1 else 0, i requires 0 <= i < |curve| - 1 => Trapezoid(curve[i], curve[i + 1]))
  }

  function Sum(s: seq<real>): real {
    if s == [] then 0.0 else Sum(s[..|s| - 1]) + s[|s| - 1]
  }

  /** The second component of `roc`; `zip(..., strict=True)` fails on lists of different lengths. */
  function Auc(scores: seq<int>, labels: seq<int>): Option<real> {
    if |scores| == |labels| then Some(Sum(Trapezoids(Curve(scores, labels)))) else None
  }

  // ------------------------------------------------------------------ the sweep is sorted backwards

  lemma {:induction false} CountGeStep(s: seq<int>, t: int)
    ensures CountGe(s, t) == CountGe(s, t + 1) + CountEq(s, t)
  {
    if s != [] {
      CountGeStep(s[..|s| - 1], t);
    }
  }

  lemma {:induction false} CountGeFalls(s: seq<int>, low: int, high: int)
    requires low <= high
    ensures CountGe(s, high) <= CountGe(s, low)
    decreases high - low
  {
    if low < high {
      CountGeStep(s, low);
      CountGeFalls(s, low + 1, high);
    }
  }

  lemma RateGrows(a: nat, b: nat, total: nat)
    requires a <= b <= total
    ensures OrZero(Rate(a, total - a)) <= OrZero(Rate(b, total - b))
  {
    if total > 0 {
      LargerNumerator(a as real, b as real, total as real);
    }
  }

  lemma PointsFall(scores: seq<int>, labels: seq<int>, low: int, high: int)
    requires |scores| == |labels| && low <= high
    ensures PointAt(scores, labels, high).fpr <= PointAt(scores, labels, low).fpr
    ensures PointAt(scores, labels, high).recall <= PointAt(scores, labels, low).recall
  {
    var pos, neg := Labelled(scores, labels, 1), Labelled(scores, labels, 0);
    CountsByClass(scores, labels, low);
    CountsByClass(scores, labels, high);
    CountGeFalls(pos, low, high);
    CountGeFalls(neg, low, high);
    RateGrows(CountGe(pos, high), CountGe(pos, low), |pos|);
    RateGrows(CountGe(neg, high), CountGe(neg, low), |neg|);
  }

  function Reversed(s: seq<Point>): (r: seq<Point>)
    ensures |r| == |s| && forall i | 0 <= i < |s| :: r[i] == s[|s| - 1 - i]
  {
    if s == [] then [] else [s[|s| - 1]] + Reversed(s[..|s| - 1])
  }

  lemma {:induction false} ReversedMembers(s: seq<Point>)
    ensures multiset(Reversed(s)) == multiset(s)
  {
    if s != [] {
      ReversedMembers(s[..|s| - 1]);
      assert s == s[..|s| - 1] + [s[|s| - 1]];
    }
  }

  lemma LexAntisymmetric()
    ensures forall p, q :: Lex()(p, q) && Lex()(q, p) ==> p == q
    ensures TotalOrder(Lex())
  {
    forall p, q | Lex()(p, q) && Lex()(q, p)
      ensures p == q
    {
      assert p.fpr == q.fpr && p.recall == q.recall;
    }
  }

  /** Raising the threshold only lowers both rates, so sorting the sweep reverses it. */
  lemma SortingReversesSweep(scores: seq<int>, labels: seq<int>)
    requires |scores| == |labels|
    ensures Sorted(Lex(), Points(scores, labels)) == Reversed(Points(scores, labels))
  {
    var points := Points(scores, labels);
    var back := Reversed(points);
    forall i, j | 0 <= i < j < |back|
      ensures Lex()(back[i], back[j])
    {
      PointsFall(scores, labels, THRESHOLDS - 1 - j, THRESHOLDS - 1 - i);
      assert back[i] == points[THRESHOLDS - 1 - i] && back[j] == points[THRESHOLDS - 1 - j];
    }
    LexAntisymmetric();
    ReversedMembers(points);
    SortedMembers(Lex(), points);
    SortedIsSorted(Lex(), points);
    SortedUnique(Lex(), Sorted(Lex(), points), back);
  }

  // ------------------------------------------------------------------ the area counts pairs

  /** Pairs, doubled: two for a positive above a negative, one for a tie, over negatives of at least `t`. */
  function DoubledPairs(pos: seq<int>, neg: seq<int>, t: int): nat {
    if neg == [] then 0 else
      var w := neg[|neg| - 1];
      DoubledPairs(pos, neg[..|neg| - 1], t) + if w >= t then 2 * CountGe(pos, w + 1) + CountEq(pos, w) else 0
  }

  lemma {:induction false} DoubledPairsStep(pos: seq<int>, neg: seq<int>, t: int)
    ensures DoubledPairs(pos, neg, t) ==
              DoubledPairs(pos, neg, t + 1) + CountEq(neg, t) * (2 * CountGe(pos, t + 1) + CountEq(pos, t))
  {
    if neg != [] {
      DoubledPairsStep(pos, neg[..|neg| - 1], t);
      var k := 2 * CountGe(pos, t + 1) + CountEq(pos, t);
      if neg[|neg| - 1] == t {
        assert (CountEq(neg[..|neg| - 1], t) + 1) * k == CountEq(neg[..|neg| - 1], t) * k + k;
      }
    }
  }

  /** `x`, taken `n` times. */
  ghost function Times(n: nat, x: real): real {
    if n == 0 then 0.0 else Times(n - 1, x) + x
  }

  lemma {:induction false} TimesIsProduct(n: nat, x: real)
    ensures Times(n, x) == n as real * x
  {
    if n > 0 {
      TimesIsProduct(n - 1, x);
      assert n as real * x == (n - 1) as real * x + x;
    }
  }

  lemma {:induction false} TimesAdd(n: nat, x: real, y: real)
    ensures Times(n, x + y) == Times(n, x) + Times(n, y)
  {
    if n > 0 {
      TimesAdd(n - 1, x, y);
    }
  }

  function Share(count: int, total: int): real {
    if total > 0 then count as real / total as real else 0.0
  }

  /** The point at a threshold, from the scores of the two classes. */
  ghost function ClassPoint(pos: seq<int>, neg: seq<int>, t: int): Point {
    Point(Share(CountGe(neg, t), |neg|), Share(CountGe(pos, t), |pos|))
  }

  lemma PointOfClasses(scores: seq<int>, labels: seq<int>, t: int)
    requires |scores| == |labels|
    ensures PointAt(scores, labels, t) == ClassPoint(Labelled(scores, labels, 1), Labelled(scores, labels, 0), t)
  {
    CountsByClass(scores, labels, t);
  }

  ghost predicate Within(s: seq<int>, low: int, high: int) {
    forall i | 0 <= i < |s| :: low <= s[i] <= high
  }

  /** Scores are percentages: `score_without_reputation` clamps them. */
  ghost predicate InRange(scores: seq<int>) {
    Within(scores, 0, 100)
  }

  lemma {:induction false} LabelledInRange(scores: seq<int>, labels: seq<int>, y: int)
    requires |scores| == |labels| && InRange(scores)
    ensures InRange(Labelled(scores, labels, y))
  {
    if scores != [] {
      var n := |scores| - 1;
      LabelledInRange(scores[..n], labels[..n], y);
    }
  }

  lemma {:induction false} ReachedByAllOrNone(s: seq<int>)
    requires InRange(s)
    ensures CountGe(s, 0) == |s| && CountGe(s, 101) == 0
  {
    if s != [] {
      ReachedByAllOrNone(s[..|s| - 1]);
    }
  }

  lemma {:induction false} NoPairsAbove(pos: seq<int>, neg: seq<int>)
    requires InRange(neg)
    ensures DoubledPairs(pos, neg, 101) == 0
  {
    if neg != [] {
      NoPairsAbove(pos, neg[..|neg| - 1]);
    }
  }

  /** The swept curve, point by point: both ends, and the thresholds from 101 down to 0 between. */
  lemma CurveAt(scores: seq<int>, labels: seq<int>, i: nat)
    requires |scores| == |labels| && i <= THRESHOLDS + 1
    ensures |Curve(scores, labels)| == THRESHOLDS + 2
    ensures Curve(scores, labels)[i] ==
              if i == 0 then Point(0.0, 0.0)
              else if i == THRESHOLDS + 1 then Point(1.0, 1.0)
              else ClassPoint(Labelled(scores, labels, 1), Labelled(scores, labels, 0), THRESHOLDS - i)
  {
    SortingReversesSweep(scores, labels);
    if 0 < i <= THRESHOLDS {
      assert Curve(scores, labels)[i] == Reversed(Points(scores, labels))[i - 1] == Points(scores, labels)[THRESHOLDS - i];
      PointOfClasses(scores, labels, THRESHOLDS - i);
    }
  }

  lemma TrapezoidScaled(a: Point, b: Point, f: int, g: int, u: int, v: int, n: int, p: int, k: nat, gained: int)
    requires n > 0 && p > 0 && k == 2 * (n * p) && gained == (g - f) * (u + v)
    requires a == Point(Share(f, n), Share(u, p)) && b == Point(Share(g, n), Share(v, p))
    ensures Times(k, Trapezoid(a, b)) == gained as real
  {
    var x, y, nr, pr := b.fpr - a.fpr, a.recall + b.recall, n as real, p as real;
    TimesIsProduct(k, Trapezoid(a, b));
    assert x * nr == (g - f) as real;
    assert y * pr == (u + v) as real;
    assert (x * y / 2.0) * (2.0 * (nr * pr)) == (x * nr) * (y * pr);
    assert ((g - f) * (u + v)) as real == (g - f) as real * (u + v) as real;
    assert k as real == 2.0 * (nr * pr);
  }

  lemma GainedPairs(pos: seq<int>, neg: seq<int>, t: int)
    ensures DoubledPairs(pos, neg, t) - DoubledPairs(pos, neg, t + 1) ==
              (CountGe(neg, t) - CountGe(neg, t + 1)) * (CountGe(pos, t + 1) + CountGe(pos, t))
  {
    CountGeStep(pos, t);
    CountGeStep(neg, t);
    DoubledPairsStep(pos, neg, t);
  }

  /** The doubled pairs counted once the sweep has reached point `i` of the curve. */
  ghost function PairsReached(pos: seq<int>, neg: seq<int>, i: nat): int {
    if i == 0 then 0 else if i > THRESHOLDS then DoubledPairs(pos, neg, 0) else DoubledPairs(pos, neg, THRESHOLDS - i)
  }

  lemma SweepEnds(pos: seq<int>, neg: seq<int>)
    requires pos != [] && neg != [] && InRange(pos) && InRange(neg)
    ensures ClassPoint(pos, neg, 0) == Point(1.0, 1.0) && ClassPoint(pos, neg, THRESHOLDS - 1) == Point(0.0, 0.0)
  {
    ReachedByAllOrNone(pos);
    ReachedByAllOrNone(neg);
    Quotient(1.0, |pos| as real, |pos| as real);
    Quotient(1.0, |neg| as real, |neg| as real);
  }

  lemma Quotient(x: real, num: real, k: real)
    requires k > 0.0 && x * k == num
    ensures num / k == x
  {
  }

  /** Each step of the curve, scaled, counts the pairs it reaches. The two added end points add no
      area: nothing is reached at 101, everything at 0. */
  lemma TrapezoidCounts(pos: seq<int>, neg: seq<int>, a: Point, b: Point, i: nat, k: nat)
    requires pos != [] && neg != [] && InRange(pos) && InRange(neg)
    requires i <= THRESHOLDS && k == 2 * (|neg| * |pos|)
    requires a == if i == 0 then Point(0.0, 0.0) else ClassPoint(pos, neg, THRESHOLDS - i)
    requires b == if i == THRESHOLDS then Point(1.0, 1.0) else ClassPoint(pos, neg, THRESHOLDS - 1 - i)
    ensures Times(k, Trapezoid(a, b)) == (PairsReached(pos, neg, i + 1) - PairsReached(pos, neg, i)) as real
  {
    if i == 0 || i == THRESHOLDS {
      SweepEnds(pos, neg);
      NoPairsAbove(pos, neg);
      TimesIsProduct(k, Trapezoid(a, b));
    } else {
      var t := THRESHOLDS - 1 - i;
      GainedPairs(pos, neg, t);
      TrapezoidScaled(a, b, CountGe(neg, t + 1), CountGe(neg, t), CountGe(pos, t + 1), CountGe(pos, t), |neg|, |pos|, k,
                      DoubledPairs(pos, neg, t) - DoubledPairs(pos, neg, t + 1));
    }
  }

  /** Gains that telescope: scaled areas add up to what the last point has reached. */
  lemma {:induction false} SumTelescopes(areas: seq<real>, reached: seq<int>, k: nat, n: nat)
    requires |reached| == |areas| + 1 && n <= |areas|
    requires forall i {:trigger areas[i]} | 0 <= i < |areas| :: Times(k, areas[i]) == (reached[i + 1] - reached[i]) as real
    ensures Times(k, Sum(areas[..n])) == (reached[n] - reached[0]) as real
  {
    if n > 0 {
      SumTelescopes(areas, reached, k, n - 1);
      assert areas[..n][..n - 1] == areas[..n - 1];
      TimesAdd(k, Sum(areas[..n - 1]), areas[n - 1]);
    } else {
      TimesIsProduct(k, 0.0);
    }
  }

  lemma AreaAt(scores: seq<int>, labels: seq<int>, pos: seq<int>, neg: seq<int>, i: nat, k: nat)
    requires |scores| == |labels| && pos == Labelled(scores, labels, 1) && neg == Labelled(scores, labels, 0)
    requires pos != [] && neg != [] && InRange(pos) && InRange(neg)
    requires i <= THRESHOLDS && k == 2 * (|neg| * |pos|)
    ensures |Curve(scores, labels)| == THRESHOLDS + 2
    ensures Times(k, Trapezoids(Curve(scores, labels))[i]) ==
              (PairsReached(pos, neg, i + 1) - PairsReached(pos, neg, i)) as real
  {
    CurveAt(scores, labels, i);
    CurveAt(scores, labels, i + 1);
    TrapezoidCounts(pos, neg, Curve(scores, labels)[i], Curve(scores, labels)[i + 1], i, k);
  }

  /** The swept area, 2 * P * N times, is the doubled pair count. */
  lemma AreaCountsPairs(scores: seq<int>, labels: seq<int>, pos: seq<int>, neg: seq<int>, k: nat)
    requires |scores| == |labels| && pos == Labelled(scores, labels, 1) && neg == Labelled(scores, labels, 0)
    requires pos != [] && neg != [] && InRange(pos) && InRange(neg)
    requires k == 2 * (|neg| * |pos|)
    ensures Times(k, Sum(Trapezoids(Curve(scores, labels)))) == DoubledPairs(pos, neg, 0) as real
  {
    var areas, reached := Trapezoids(Curve(scores, labels)), seq(THRESHOLDS + 2, i requires i >= 0 => PairsReached(pos, neg, i));
    AreaAt(scores, labels, pos, neg, 0, k);
    forall i {:trigger areas[i]} | 0 <= i < |areas|
      ensures Times(k, areas[i]) == (reached[i + 1] - reached[i]) as real
    {
      AreaAt(scores, labels, pos, neg, i, k);
    }
    SumTelescopes(areas, reached, k, |areas|);
    assert areas[..|areas|] == areas;
  }

  // ------------------------------------------------------------------ the pairwise definition

  function CountBelow(b: int, worse: seq<int>): nat {
    if worse == [] then 0 else CountBelow(b, worse[..|worse| - 1]) + if b > worse[|worse| - 1] then 1 else 0
  }

  function CountAbove(b: int, worse: seq<int>): nat {
    if worse == [] then 0 else CountAbove(b, worse[..|worse| - 1]) + if b < worse[|worse| - 1] then 1 else 0
  }

  /** `sum(1 for b in better for w in worse if b > w)` */
  function Wins(better: seq<int>, worse: seq<int>): nat {
    if better == [] then 0 else Wins(better[..|better| - 1], worse) + CountBelow(better[|better| - 1], worse)
  }

  /** `sum(1 for b in better for w in worse if b < w)` */
  function Losses(better: seq<int>, worse: seq<int>): nat {
    if better == [] then 0 else Losses(better[..|better| - 1], worse) + CountAbove(better[|better| - 1], worse)
  }

  function Ties(better: seq<int>, worse: seq<int>): nat {
    if better == [] then 0 else Ties(better[..|better| - 1], worse) + CountEq(worse, better[|better| - 1])
  }

  function CliffsDelta(better: seq<int>, worse: seq<int>): Option<real> {
    if better == [] || worse == [] then None
    else Some((Wins(better, worse) - Losses(better, worse)) as real / (|better| * |worse|) as real)
  }

  lemma {:induction false} Trichotomy(b: int, worse: seq<int>)
    ensures CountBelow(b, worse) + CountAbove(b, worse) + CountEq(worse, b) == |worse|
  {
    if worse != [] {
      Trichotomy(b, worse[..|worse| - 1]);
    }
  }

  lemma {:induction false} AllPairs(better: seq<int>, worse: seq<int>)
    ensures Wins(better, worse) + Losses(better, worse) + Ties(better, worse) == |worse| * |better|
  {
    if better != [] {
      AllPairs(better[..|better| - 1], worse);
      Trichotomy(better[|better| - 1], worse);
      assert |worse| * |better| == |worse| * (|better| - 1) + |worse|;
    }
  }

  /** Adding one score to the worse side, counted from the better side. */
  lemma {:induction false} OneMoreWorse(better: seq<int>, worse: seq<int>, w: int)
    ensures Wins(better, worse + [w]) == Wins(better, worse) + CountGe(better, w + 1)
    ensures Ties(better, worse + [w]) == Ties(better, worse) + CountEq(better, w)
  {
    if better != [] {
      OneMoreWorse(better[..|better| - 1], worse, w);
      assert (worse + [w])[..|worse|] == worse;
    }
  }

  lemma {:induction false} NoWorse(better: seq<int>)
    ensures Wins(better, []) == 0 && Ties(better, []) == 0
  {
    if better != [] {
      NoWorse(better[..|better| - 1]);
    }
  }

  lemma {:induction false} PairsByNegative(pos: seq<int>, neg: seq<int>, t: int)
    requires forall i | 0 <= i < |neg| :: neg[i] >= t
    ensures DoubledPairs(pos, neg, t) == 2 * Wins(pos, neg) + Ties(pos, neg)
  {
    if neg == [] {
      NoWorse(pos);
    } else {
      var n := |neg| - 1;
      PairsByNegative(pos, neg[..n], t);
      OneMoreWorse(pos, neg[..n], neg[n]);
      assert neg[..n] + [neg[n]] == neg;
    }
  }

  lemma Scaling(x: real, k: real)
    requires k > 0.0
    ensures x < 0.0 ==> x * k < 0.0
    ensures x > 1.0 ==> x * k > k
  {
  }

  lemma ShareOf(area: real, k: nat, num: int)
    requires k > 0 && Times(k, area) == num as real
    ensures area == num as real / k as real
  {
    TimesIsProduct(k, area);
    Quotient(area, num as real, k as real);
  }

  /** The area under the swept curve is the share of (positive, negative) pairs ranked right, ties
      counting half. */
  lemma AucIsPairwise(scores: seq<int>, labels: seq<int>, pos: seq<int>, neg: seq<int>, area: real, pairs: int, won: int)
    requires |scores| == |labels| && InRange(scores) && Auc(scores, labels) == Some(area)
    requires pos == Labelled(scores, labels, 1) && neg == Labelled(scores, labels, 0) && pos != [] && neg != []
    requires pairs == |neg| * |pos| && won == 2 * Wins(pos, neg) + Ties(pos, neg)
    ensures pairs > 0 && area == won as real / (2 * pairs) as real
  {
    PositiveProduct(|neg|, |pos|);
    assert Times(2 * pairs, area) == won as real by {
      LabelledInRange(scores, labels, 1);
      LabelledInRange(scores, labels, 0);
      AreaCountsPairs(scores, labels, pos, neg, 2 * pairs);
      PairsByNegative(pos, neg, 0);
    }
    ShareOf(area, 2 * pairs, won);
  }

  lemma PositiveProduct(a: int, b: int)
    requires a > 0 && b > 0
    ensures a * b > 0
  {
  }

  lemma ShareBounds(auc: real, wins: nat, losses: nat, ties: nat, won: int, led: int, pairs: int, delta: real)
    requires pairs > 0 && wins + losses + ties == pairs
    requires won == 2 * wins + ties && auc == won as real / (2 * pairs) as real
    requires led == wins - losses && delta == led as real / pairs as real
    ensures 0.0 <= auc <= 1.0 && delta == 2.0 * auc - 1.0
  {
    var a, x := pairs as real, won as real;
    assert auc * (2.0 * a) == x;
    Scaling(auc, 2.0 * a);
    assert (2.0 * auc - 1.0) * a == x - a;
    Quotient(2.0 * auc - 1.0, led as real, a);
  }

  lemma AreaAndDelta(scores: seq<int>, labels: seq<int>, pos: seq<int>, neg: seq<int>, area: real, delta: real,
                     pairs: int, won: int, led: int)
    requires |scores| == |labels| && InRange(scores) && Auc(scores, labels) == Some(area)
    requires pos == Labelled(scores, labels, 1) && neg == Labelled(scores, labels, 0) && pos != [] && neg != []
    requires pairs == |neg| * |pos| && won == 2 * Wins(pos, neg) + Ties(pos, neg)
    requires pairs > 0 && led == Wins(pos, neg) - Losses(pos, neg) && delta == led as real / pairs as real
    ensures 0.0 <= area <= 1.0 && delta == 2.0 * area - 1.0
  {
    AllPairs(pos, neg);
    AucIsPairwise(scores, labels, pos, neg, area, pairs, won);
    ShareBounds(area, Wins(pos, neg), Losses(pos, neg), Ties(pos, neg), won, led, pairs, delta);
  }

  lemma DeltaFraction(pos: seq<int>, neg: seq<int>, delta: real, pairs: int, led: int)
    requires CliffsDelta(pos, neg) == Some(delta)
    requires pairs == |neg| * |pos| && led == Wins(pos, neg) - Losses(pos, neg)
    ensures pos != [] && neg != [] && pairs > 0 && delta == led as real / pairs as real
  {
    PositiveProduct(|neg|, |pos|);
  }

  /** The area is between 0 and 1, and Cliff's delta of the two classes is twice the area less one. */
  lemma AucAndCliffsDelta(scores: seq<int>, labels: seq<int>, pos: seq<int>, neg: seq<int>, area: real, delta: real)
    requires |scores| == |labels| && InRange(scores) && Auc(scores, labels) == Some(area)
    requires pos == Labelled(scores, labels, 1) && neg == Labelled(scores, labels, 0)
    requires CliffsDelta(pos, neg) == Some(delta)
    ensures 0.0 <= area <= 1.0 && delta == 2.0 * area - 1.0
  {
    var pairs, won, led := |neg| * |pos|, 2 * Wins(pos, neg) + Ties(pos, neg), Wins(pos, neg) - Losses(pos, neg);
    DeltaFraction(pos, neg, delta, pairs, led);
    AreaAndDelta(scores, labels, pos, neg, area, delta, pairs, won, led);
  }
}
