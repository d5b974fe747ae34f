/** Finite walks of a relation, shared by every graph argument of the project. */
module Paths {

  /** `p` is a walk from `a` to `b` along `edge`; a walk of one node uses no edge. */
  ghost predicate IsPath<N(!new)>(edge: (N, N) -> bool, p: seq<N>, a: N, b: N) {
    && |p| > 0
    && p[0] == a
    && p[|p| - 1] == b
    && forall i | 0 <= i < |p| - 1 :: edge(p[i], p[i + 1])
  }

  ghost predicate Reach<N(!new)>(edge: (N, N) -> bool, a: N, b: N) {
    exists p :: IsPath(edge, p, a, b)
  }

  lemma ReachSelf<N(!new)>(edge: (N, N) -> bool, a: N)
    ensures Reach(edge, a, a)
  {
    assert IsPath(edge, [a], a, a);
  }

  lemma ReachStep<N(!new)>(edge: (N, N) -> bool, a: N, b: N)
    requires edge(a, b)
    ensures Reach(edge, a, b)
  {
    assert IsPath(edge, [a, b], a, b);
  }

  lemma ReachTrans<N(!new)>(edge: (N, N) -> bool, a: N, b: N, c: N)
    requires Reach(edge, a, b) && Reach(edge, b, c)
    ensures Reach(edge, a, c)
  {
    var p :| IsPath(edge, p, a, b);
    var q :| IsPath(edge, q, b, c);
    var r := p + q[1..];
    forall i | 0 <= i < |r| - 1
      ensures edge(r[i], r[i + 1])
    {
      if i >= |p| - 1 {
        assert r[i] == q[i - (|p| - 1)] && r[i + 1] == q[i - (|p| - 1) + 1];
      }
    }
    assert IsPath(edge, r, a, c);
  }

  /** A property every edge carries forward holds at the end of a walk if it holds at its start. */
  lemma {:induction false} Carried<N(!new)>(edge: (N, N) -> bool, holds: N -> bool, p: seq<N>, a: N, b: N)
    requires IsPath(edge, p, a, b) && holds(a)
    requires forall x, y | edge(x, y) && holds(x) :: holds(y)
    ensures holds(b)
    decreases |p|
  {
    if |p| > 1 {
      assert edge(p[0], p[1]);
      Carried(edge, holds, p[1..], p[1], b);
    }
  }

  lemma ReachCarries<N(!new)>(edge: (N, N) -> bool, holds: N -> bool, a: N, b: N)
    requires Reach(edge, a, b) && holds(a)
    requires forall x, y | edge(x, y) && holds(x) :: holds(y)
    ensures holds(b)
  {
    var p :| IsPath(edge, p, a, b);
    Carried(edge, holds, p, a, b);
  }

  /** If every edge of one relation is a walk of another, so is every walk. */
  lemma ReachLifts<N(!new)>(edge: (N, N) -> bool, wide: (N, N) -> bool, a: N, b: N)
    requires Reach(edge, a, b)
    requires forall x, y | edge(x, y) :: Reach(wide, x, y)
    ensures Reach(wide, a, b)
  {
    ReachSelf(wide, a);
    forall x, y | edge(x, y) && Reach(wide, a, x)
      ensures Reach(wide, a, y)
    {
      ReachTrans(wide, a, x, y);
    }
    ReachCarries(edge, x => Reach(wide, a, x), a, b);
  }

  /** Walks of a symmetric relation can be walked backwards. */
  lemma ReachSymmetric<N(!new)>(edge: (N, N) -> bool, a: N, b: N)
    requires Reach(edge, a, b)
    requires forall x, y | edge(x, y) :: edge(y, x)
    ensures Reach(edge, b, a)
  {
    ReachSelf(edge, a);
    forall x, y | edge(x, y) && Reach(edge, x, a)
      ensures Reach(edge, y, a)
    {
      ReachStep(edge, y, x);
      ReachTrans(edge, y, x, a);
    }
    ReachCarries(edge, x => Reach(edge, x, a), a, b);
  }
}
