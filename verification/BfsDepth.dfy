/** dep_health.py `_bfs_depth`: how deep a lockfile's dependency graph is. */
module BfsDepth {
  import opened Paths

  ghost function Child<N(!new)>(edges: map<N, seq<N>>): (N, N) -> bool {
    (a, b) => a in edges && b in edges[a]
  }

  /** Some walk from a root to `n` has `k` nodes: `n` is at depth `k` or less, a root at depth 1. */
  ghost predicate Attained<N(!new)>(roots: seq<N>, edges: map<N, seq<N>>, n: N, k: int) {
    exists r, p :: r in roots && IsPath(Child(edges), p, r, n) && |p| == k
  }

  /** `k` is the shortest distance of `n` from any root. */
  ghost predicate Shortest<N(!new)>(roots: seq<N>, edges: map<N, seq<N>>, n: N, k: int) {
    Attained(roots, edges, n, k) && forall j :: Attained(roots, edges, n, j) ==> k <= j
  }

  /** Every child of `u` has been seen, at most one deeper than `u`. */
  ghost predicate Expanded<N(!new)>(edges: map<N, seq<N>>, depth: map<N, int>, u: N)
    requires u in depth
  {
    u in edges ==> forall c | c in edges[u] :: c in depth && depth[c] <= depth[u] + 1
  }

  ghost predicate Grounded<N(!new)>(roots: seq<N>, edges: map<N, seq<N>>, depth: map<N, int>) {
    forall n | n in depth :: Attained(roots, edges, n, depth[n])
  }

  /** The queue holds distinct seen nodes, nearest first, and reaches at most one level below `level`. */
  ghost predicate Layered<N(!new)>(depth: map<N, int>, queue: seq<N>, level: int) {
    && (forall i | 0 <= i < |queue| :: queue[i] in depth && depth[queue[i]] >= level)
    && (forall i, j | 0 <= i < j < |queue| :: queue[i] != queue[j] && depth[queue[i]] <= depth[queue[j]])
    && (forall n | n in depth :: depth[n] <= level + 1)
  }

  lemma {:induction false} AttainedRoot<N(!new)>(roots: seq<N>, edges: map<N, seq<N>>, r: N)
    requires r in roots
    ensures Attained(roots, edges, r, 1)
  {
    assert IsPath(Child(edges), [r], r, r);
  }

  lemma AttainedChild<N(!new)>(roots: seq<N>, edges: map<N, seq<N>>, u: N, c: N, k: int)
    requires Attained(roots, edges, u, k) && u in edges && c in edges[u]
    ensures Attained(roots, edges, c, k + 1)
  {
    var r, p :| r in roots && IsPath(Child(edges), p, r, u) && |p| == k;
    assert IsPath(Child(edges), p + [c], r, c);
  }

  /** When everything seen is expanded, no walk is shorter than the recorded depth. */
  lemma {:induction false} NoShorter<N(!new)>(roots: seq<N>, edges: map<N, seq<N>>, depth: map<N, int>, p: seq<N>, r: N, n: N)
    requires forall u | u in depth :: Expanded(edges, depth, u)
    requires r in depth && depth[r] <= 1
    requires IsPath(Child(edges), p, r, n)
    ensures n in depth && depth[n] <= |p|
    decreases |p|
  {
    if |p| > 1 {
      var q, m := p[..|p| - 1], p[|p| - 2];
      NoShorter(roots, edges, depth, q, r, m);
      assert Child(edges)(p[|p| - 2], p[|p| - 1]);
    }
  }

  lemma DepthsAreShortest<N(!new)>(roots: seq<N>, edges: map<N, seq<N>>, depth: map<N, int>)
    requires Grounded(roots, edges, depth)
    requires forall r | r in roots :: r in depth && depth[r] <= 1
    requires forall u | u in depth :: Expanded(edges, depth, u)
    ensures forall n, k :: Shortest(roots, edges, n, k) <==> n in depth && k == depth[n]
  {
    forall n, k | Attained(roots, edges, n, k)
      ensures n in depth && depth[n] <= k
    {
      var r, p :| r in roots && IsPath(Child(edges), p, r, n) && |p| == k;
      NoShorter(roots, edges, depth, p, r, n);
    }
  }

  ghost function Children<N>(edges: map<N, seq<N>>): set<N> {
    set u, c | u in edges && c in edges[u] :: c
  }

  /** The deepest of the shortest distances over everything reachable; 0 without roots. */
  ghost predicate IsDepth<N(!new)>(roots: seq<N>, edges: map<N, seq<N>>, d: int) {
    && (forall n, k :: Shortest(roots, edges, n, k) ==> k <= d)
    && (if roots == [] then d == 0 else exists n :: Shortest(roots, edges, n, d))
  }

  method SeedRoots<N(==,!new)>(roots: seq<N>, ghost edges: map<N, seq<N>>) returns (depth: map<N, int>, queue: seq<N>)
    ensures Grounded(roots, edges, depth) && Layered(depth, queue, 1)
    ensures forall n :: n in depth <==> n in roots
    ensures forall n :: n in depth <==> n in queue
    ensures forall n | n in depth :: depth[n] == 1
  {
    depth, queue := map[], [];
    for i := 0 to |roots|
      invariant Grounded(roots, edges, depth) && Layered(depth, queue, 1)
      invariant forall n :: n in depth <==> n in roots[..i]
      invariant forall n :: n in depth <==> n in queue
      invariant forall n | n in depth :: depth[n] == 1
    {
      if roots[i] !in depth {
        AttainedRoot(roots, edges, roots[i]);
        depth := depth[roots[i] := 1];
        queue := queue + [roots[i]];
      }
    }
    assert roots[..|roots|] == roots;
  }

  lemma ChildKeepsOrder<N(!new)>(roots: seq<N>, edges: map<N, seq<N>>, depth: map<N, int>, queue: seq<N>,
                                 node: N, child: N, level: int)
    requires Grounded(roots, edges, depth) && Layered(depth, queue, level)
    requires node in depth && depth[node] == level && node in edges && child in edges[node] && child !in depth
    ensures Grounded(roots, edges, depth[child := level + 1])
    ensures Layered(depth[child := level + 1], queue + [child], level)
  {
    AttainedChild(roots, edges, node, child, level);
    var depth', queue' := depth[child := level + 1], queue + [child];
    forall i | 0 <= i < |queue'|
      ensures queue'[i] in depth' && level <= depth'[queue'[i]] <= level + 1
      ensures i < |queue| ==> queue'[i] == queue[i] && queue'[i] != child && depth'[queue'[i]] == depth[queue[i]]
    {
    }
  }

  /** From one dictionary and queue to the next, only unseen children of `node` are added, to both,
      each one level below `node`. */
  ghost predicate Grows<N(!new)>(edges: map<N, seq<N>>, node: N, depth0: map<N, int>, queue0: seq<N>,
                                 depth: map<N, int>, queue: seq<N>) {
    && node in depth0
    && (forall n | n in depth0 :: n in depth && depth[n] == depth0[n])
    && (forall n | n in depth && n !in depth0 :: node in edges && n in edges[node] && depth[n] == depth0[node] + 1)
    && (forall n :: n in queue <==> n in queue0 || (n in depth && n !in depth0))
  }

  lemma ChildGrows<N(!new)>(edges: map<N, seq<N>>, node: N, depth0: map<N, int>, queue0: seq<N>,
                            depth: map<N, int>, queue: seq<N>, child: N)
    requires Grows(edges, node, depth0, queue0, depth, queue) && child !in depth && node in edges && child in edges[node]
    ensures Grows(edges, node, depth0, queue0, depth[child := depth0[node] + 1], queue + [child])
  {
  }

  /** The inner loop's invariant on dictionary and queue. */
  ghost predicate Expanding<N(!new)>(roots: seq<N>, edges: map<N, seq<N>>, node: N, depth0: map<N, int>, queue0: seq<N>,
                                     depth: map<N, int>, queue: seq<N>) {
    && node in depth0 && node in depth && depth[node] == depth0[node]
    && Grounded(roots, edges, depth) && Layered(depth, queue, depth0[node])
    && Grows(edges, node, depth0, queue0, depth, queue)
  }

  ghost predicate AllIn<N(!new)>(nodes: seq<N>, upTo: nat, depth: map<N, int>) {
    upTo <= |nodes| && forall k | 0 <= k < upTo :: nodes[k] in depth
  }

  ghost function ChildrenOf<N(!new)>(edges: map<N, seq<N>>, node: N): seq<N> {
    if node in edges then edges[node] else []
  }

  lemma StartExpanding<N(!new)>(roots: seq<N>, edges: map<N, seq<N>>, node: N, depth: map<N, int>, queue: seq<N>)
    requires node in depth && Grounded(roots, edges, depth) && Layered(depth, queue, depth[node])
    ensures Expanding(roots, edges, node, depth, queue, depth, queue)
  {
  }

  lemma EndExpanding<N(!new)>(roots: seq<N>, edges: map<N, seq<N>>, node: N, depth0: map<N, int>, queue0: seq<N>,
                              depth: map<N, int>, queue: seq<N>)
    requires Expanding(roots, edges, node, depth0, queue0, depth, queue)
    requires AllIn(ChildrenOf(edges, node), |ChildrenOf(edges, node)|, depth)
    ensures Grounded(roots, edges, depth) && Layered(depth, queue, depth0[node])
    ensures Grows(edges, node, depth0, queue0, depth, queue)
    ensures node in depth && Expanded(edges, depth, node)
  {
    AllChildrenSeen(edges, depth, queue, node);
  }

  /** One turn of the inner loop: an unseen child goes one level below `node`. */
  method ExpandChild<N(==,!new)>(ghost roots: seq<N>, ghost edges: map<N, seq<N>>, node: N, children: seq<N>, i: nat,
                                 ghost depth0: map<N, int>, ghost queue0: seq<N>, seen: map<N, int>, waiting: seq<N>)
    returns (depth: map<N, int>, queue: seq<N>)
    requires Expanding(roots, edges, node, depth0, queue0, seen, waiting)
    requires children == ChildrenOf(edges, node) && i < |children| && AllIn(children, i, seen)
    ensures Expanding(roots, edges, node, depth0, queue0, depth, queue)
    ensures AllIn(children, i + 1, depth)
  {
    depth, queue := seen, waiting;
    var child := children[i];
    if child !in depth {
      AddChild(roots, edges, depth0, queue0, depth, queue, node, child);
      depth, queue := depth[child := depth[node] + 1], queue + [child];
    }
  }

  /** The inner loop: put the unseen children of `node` one level below it. */
  method Expand<N(==,!new)>(ghost roots: seq<N>, edges: map<N, seq<N>>, node: N, depth0: map<N, int>, queue0: seq<N>)
    returns (depth: map<N, int>, queue: seq<N>)
    requires node in depth0
    requires Grounded(roots, edges, depth0) && Layered(depth0, queue0, depth0[node])
    ensures Grounded(roots, edges, depth) && Layered(depth, queue, depth0[node])
    ensures Grows(edges, node, depth0, queue0, depth, queue)
    ensures node in depth && Expanded(edges, depth, node)
  {
    depth, queue := depth0, queue0;
    var children := if node in edges then edges[node] else [];
    StartExpanding(roots, edges, node, depth, queue);
    var i := 0;
    while i < |children|
      invariant 0 <= i <= |children|
      invariant Expanding(roots, edges, node, depth0, queue0, depth, queue)
      invariant AllIn(children, i, depth)
    {
      depth, queue := ExpandChild(roots, edges, node, children, i, depth0, queue0, depth, queue);
      i := i + 1;
    }
    EndExpanding(roots, edges, node, depth0, queue0, depth, queue);
  }

  lemma AddChild<N(!new)>(roots: seq<N>, edges: map<N, seq<N>>, depth0: map<N, int>, queue0: seq<N>,
                          depth: map<N, int>, queue: seq<N>, node: N, child: N)
    requires node in depth && node in edges && child in edges[node] && child !in depth
    requires Grounded(roots, edges, depth) && Layered(depth, queue, depth[node])
    requires Grows(edges, node, depth0, queue0, depth, queue)
    ensures var depth', queue' := depth[child := depth[node] + 1], queue + [child];
      && Grounded(roots, edges, depth') && Layered(depth', queue', depth[node])
      && Grows(edges, node, depth0, queue0, depth', queue')
  {
    ChildKeepsOrder(roots, edges, depth, queue, node, child, depth[node]);
    ChildGrows(edges, node, depth0, queue0, depth, queue, child);
  }

  lemma AllChildrenSeen<N(!new)>(edges: map<N, seq<N>>, depth: map<N, int>, queue: seq<N>, node: N)
    requires node in depth && Layered(depth, queue, depth[node])
    requires node in edges ==> forall k | 0 <= k < |edges[node]| :: edges[node][k] in depth
    ensures Expanded(edges, depth, node)
  {
  }

  /** The loop invariant of the search; `done` are the nodes already taken from the queue. */
  ghost predicate Searching<N(!new)>(roots: seq<N>, edges: map<N, seq<N>>, depth: map<N, int>, queue: seq<N>,
                                     done: set<N>, level: int) {
    && Grounded(roots, edges, depth)
    && Layered(depth, queue, level)
    && (forall r | r in roots :: r in depth && depth[r] == 1)
    && (forall n :: n in depth <==> n in queue || n in done)
    && (forall n | n in done :: n !in queue && depth[n] <= level && Expanded(edges, depth, n))
    && depth.Keys <= (set r | r in roots) + Children(edges)
  }

  lemma NextNode<N(!new)>(roots: seq<N>, edges: map<N, seq<N>>, depth: map<N, int>, queue: seq<N>, done: set<N>, level: int)
    requires Searching(roots, edges, depth, queue, done, level) && queue != []
    ensures queue[0] in depth && queue[0] !in queue[1..] && queue[0] !in done
    ensures level <= depth[queue[0]]
    ensures Layered(depth, queue[1..], depth[queue[0]])
  {
    assert queue[0] in queue;
  }

  lemma NodeDone<N(!new)>(roots: seq<N>, edges: map<N, seq<N>>, depth: map<N, int>, queue: seq<N>, done: set<N>, level: int,
                          depth': map<N, int>, queue': seq<N>)
    requires Searching(roots, edges, depth, queue, done, level) && queue != [] && queue[0] in depth
    requires queue[0] !in queue[1..] && queue[0] !in done && level <= depth[queue[0]]
    requires Grounded(roots, edges, depth') && Layered(depth', queue', depth[queue[0]])
    requires Grows(edges, queue[0], depth, queue[1..], depth', queue')
    requires queue[0] in depth' && Expanded(edges, depth', queue[0])
    ensures Searching(roots, edges, depth', queue', done + {queue[0]}, depth[queue[0]])
  {
    forall n | n in done
      ensures n in depth' && n !in queue' && depth'[n] <= depth[queue[0]] && Expanded(edges, depth', n)
    {
      assert n !in queue && Expanded(edges, depth, n);
    }
    forall n
      ensures n in depth' <==> n in queue' || n in done + {queue[0]}
    {
      assert n in queue <==> n == queue[0] || n in queue[1..];
    }
  }

  /** `max(depth.values(), default=0)` */
  method MaxValue<N(==,!new)>(depth: map<N, int>) returns (d: int)
    requires forall n | n in depth :: depth[n] >= 0
    ensures forall n | n in depth :: depth[n] <= d
    ensures if depth == map[] then d == 0 else exists n :: n in depth && depth[n] == d
  {
    d := 0;
    var rest := depth.Keys;
    while rest != {}
      invariant rest <= depth.Keys && d >= 0
      invariant forall n | n in depth && n !in rest :: depth[n] <= d
      invariant (d == 0 && rest == depth.Keys) || exists n :: n in depth && depth[n] == d
      decreases rest
    {
      var n :| n in rest;
      if depth[n] > d || rest == depth.Keys {
        d := depth[n];
      }
      rest := rest - {n};
    }
  }

  method BfsDepth<N(==,!new)>(roots: seq<N>, edges: map<N, seq<N>>) returns (d: int)
    ensures IsDepth(roots, edges, d)
  {
    var depth, queue := SeedRoots(roots, edges);
    ghost var done := {};
    ghost var level: int := 1;
    while queue != []
      invariant Searching(roots, edges, depth, queue, done, level)
      decreases (set r | r in roots) + Children(edges) - done
    {
      var node := queue[0];
      NextNode(roots, edges, depth, queue, done, level);
      var deeper, longer := Expand(roots, edges, node, depth, queue[1..]);
      NodeDone(roots, edges, depth, queue, done, level, deeper, longer);
      level := depth[node];
      depth, queue := deeper, longer;
      done := done + {node};
    }
    DepthsAreShortest(roots, edges, depth);
    GroundedPositive(roots, edges, depth);
    NoRootsNoDepth(roots, edges, depth);
    d := MaxValue(depth);
    if roots != [] {
      assert roots[0] in depth;
      var n :| n in depth && depth[n] == d;
      assert Shortest(roots, edges, n, d);
    } else {
      assert depth.Keys == {};
    }
  }

  lemma NoRootsNoDepth<N(!new)>(roots: seq<N>, edges: map<N, seq<N>>, depth: map<N, int>)
    requires Grounded(roots, edges, depth)
    ensures forall n | n in depth :: roots != []
  {
    forall n | n in depth
      ensures roots != []
    {
      assert Attained(roots, edges, n, depth[n]);
    }
  }

  lemma GroundedPositive<N(!new)>(roots: seq<N>, edges: map<N, seq<N>>, depth: map<N, int>)
    requires Grounded(roots, edges, depth)
    ensures forall n | n in depth :: depth[n] >= 1
  {
    forall n | n in depth
      ensures depth[n] >= 1
    {
      assert Attained(roots, edges, n, depth[n]);
    }
  }
}
