/** The graph that the edge generator's output describes: vertices are ids, each edge
    line `u w` an edge from `u` to `w`. It is read two ways: as an undirected graph,
    where a vertex's component is everything reachable from it, and along the edges'
    own direction, the direction in which component ids travel from an edge's first
    endpoint to its second. In both readings the smallest id that reaches a vertex is
    1 for an odd vertex and 2 for an even one. The job's join itself is not modelled. */
module OddEvenGraph {

  type Edge = (int, int)

  /** `u` and `w` are joined by some edge, in either orientation. */
  ghost predicate Adjacent(edges: seq<Edge>, u: int, w: int) {
    exists k :: 0 <= k < |edges| && (edges[k] == (u, w) || edges[k] == (w, u))
  }

  /** A walk along edges, possibly of a single vertex. */
  ghost predicate IsPath(edges: seq<Edge>, p: seq<int>) {
    |p| >= 1 && forall i :: 0 <= i < |p| - 1 ==> Adjacent(edges, p[i], p[i + 1])
  }

  ghost predicate Reachable(edges: seq<Edge>, u: int, w: int) {
    exists p :: IsPath(edges, p) && p[0] == u && p[|p| - 1] == w
  }

  /** `c` is the smallest id in the component of `v`. */
  ghost predicate IsMinimumLabel(edges: seq<Edge>, v: int, c: int) {
    Reachable(edges, v, c) && forall w :: Reachable(edges, v, w) ==> c <= w
  }

  /** Every endpoint is one of the vertices 1..n. */
  predicate EndpointsInRange(edges: seq<Edge>, n: int) {
    forall k :: 0 <= k < |edges| ==> 1 <= edges[k].0 <= n && 1 <= edges[k].1 <= n
  }

  /** No edge joins an odd vertex to an even one. */
  predicate ParityPreserving(edges: seq<Edge>) {
    forall k :: 0 <= k < |edges| ==> edges[k].0 % 2 == edges[k].1 % 2
  }

  /** The first n - 2 edges are the chain `i-2 i` for i = 3..n, in that order. */
  predicate ChainPrefix(edges: seq<Edge>, n: int) {
    n >= 2 && |edges| >= n - 2 && forall k :: 0 <= k < n - 2 ==> edges[k] == (k + 1, k + 3)
  }

  /** The smallest positive id of the same parity as `v`. */
  function ParityRoot(v: int): (r: int)
    ensures r == 1 || r == 2
  {
    if v % 2 == 1 then 1 else 2
  }

  /** Along a walk that starts inside 1..n, every vertex keeps the start's parity and stays in 1..n. */
  lemma {:induction false} WalkStaysInParityClass(edges: seq<Edge>, n: int, p: seq<int>, i: int)
    requires EndpointsInRange(edges, n) && ParityPreserving(edges)
    requires IsPath(edges, p) && 1 <= p[0] <= n
    requires 0 <= i < |p|
    ensures 1 <= p[i] <= n && p[i] % 2 == p[0] % 2
  {
    if i > 0 {
      WalkStaysInParityClass(edges, n, p, i - 1);
      assert Adjacent(edges, p[i - 1], p[i]);
      var k :| 0 <= k < |edges| && (edges[k] == (p[i - 1], p[i]) || edges[k] == (p[i], p[i - 1]));
    }
  }

  /** Everything reachable from a vertex in 1..n lies in 1..n and has its parity. */
  lemma ReachableKeepsParity(edges: seq<Edge>, n: int, v: int, w: int)
    requires EndpointsInRange(edges, n) && ParityPreserving(edges)
    requires 1 <= v <= n && Reachable(edges, v, w)
    ensures 1 <= w <= n && w % 2 == v % 2
  {
    var p :| IsPath(edges, p) && p[0] == v && p[|p| - 1] == w;
    WalkStaysInParityClass(edges, n, p, |p| - 1);
  }

  /** Following the chain down by steps of two reaches 1 from an odd vertex and 2 from an even one. */
  lemma {:induction false} ChainReachesRoot(edges: seq<Edge>, n: int, v: int)
    requires ChainPrefix(edges, n) && 1 <= v <= n
    ensures Reachable(edges, v, ParityRoot(v))
    decreases v
  {
    if v <= 2 {
      assert IsPath(edges, [v]);
    } else {
      ChainReachesRoot(edges, n, v - 2);
      var p :| IsPath(edges, p) && p[0] == v - 2 && p[|p| - 1] == ParityRoot(v - 2);
      assert edges[v - 3] == (v - 2, v);
      assert Adjacent(edges, v, v - 2);
      var q := [v] + p;
      forall i | 0 <= i < |q| - 1 ensures Adjacent(edges, q[i], q[i + 1]) {
        if i > 0 {
          assert q[i] == p[i - 1] && q[i + 1] == p[i];
        }
      }
      assert IsPath(edges, q) && q[|q| - 1] == p[|p| - 1];
    }
  }

  /** In a graph whose first edges form the chain and whose edges never cross parity,
      the smallest id in the component of vertex v is 1 when v is odd and 2 when v is even. */
  lemma ComponentMinimum(edges: seq<Edge>, n: int, v: int)
    requires EndpointsInRange(edges, n) && ParityPreserving(edges) && ChainPrefix(edges, n)
    requires 1 <= v <= n
    ensures IsMinimumLabel(edges, v, ParityRoot(v))
  {
    ChainReachesRoot(edges, n, v);
    forall w | Reachable(edges, v, w) ensures ParityRoot(v) <= w {
      ReachableKeepsParity(edges, n, v, w);
    }
  }

  /** A vertex has only one smallest id in its component, so under the same assumptions
      any minimum label is the parity root. */
  lemma MinimumLabelIsParityRoot(edges: seq<Edge>, n: int, v: int, c: int)
    requires EndpointsInRange(edges, n) && ParityPreserving(edges) && ChainPrefix(edges, n)
    requires 1 <= v <= n
    ensures IsMinimumLabel(edges, v, c) <==> c == ParityRoot(v)
  {
    ComponentMinimum(edges, n, v);
  }

  // ---------------------------------------------------------------------------
  // Along the edges' direction
  // ---------------------------------------------------------------------------

  /** Some edge runs from `u` to `w`, in the orientation it was written. */
  ghost predicate Arc(edges: seq<Edge>, u: int, w: int) {
    exists k :: 0 <= k < |edges| && edges[k] == (u, w)
  }

  /** A walk that follows every edge from its first endpoint to its second. */
  ghost predicate IsDirectedPath(edges: seq<Edge>, p: seq<int>) {
    |p| >= 1 && forall i :: 0 <= i < |p| - 1 ==> Arc(edges, p[i], p[i + 1])
  }

  ghost predicate ReachesAlong(edges: seq<Edge>, u: int, w: int) {
    exists p :: IsDirectedPath(edges, p) && p[0] == u && p[|p| - 1] == w
  }

  /** `c` is the smallest id from which `v` can be reached along the edges' direction. */
  ghost predicate IsMinimumSource(edges: seq<Edge>, v: int, c: int) {
    ReachesAlong(edges, c, v) && forall u :: ReachesAlong(edges, u, v) ==> c <= u
  }

  /** Every vertex that reaches a vertex in 1..n along the edges lies in 1..n and has
      its parity. */
  lemma SourceKeepsParity(edges: seq<Edge>, n: int, v: int, u: int)
    requires EndpointsInRange(edges, n) && ParityPreserving(edges)
    requires 1 <= v <= n && ReachesAlong(edges, u, v)
    ensures 1 <= u <= n && u % 2 == v % 2
  {
    var p :| IsDirectedPath(edges, p) && p[0] == u && p[|p| - 1] == v;
    if |p| > 1 {
      assert Arc(edges, p[0], p[1]);
      var k :| 0 <= k < |edges| && edges[k] == (p[0], p[1]);
    }
    forall i | 0 <= i < |p| - 1 ensures Adjacent(edges, p[i], p[i + 1]) {
      assert Arc(edges, p[i], p[i + 1]);
      var k :| 0 <= k < |edges| && edges[k] == (p[i], p[i + 1]);
    }
    WalkStaysInParityClass(edges, n, p, |p| - 1);
  }

  /** Going up the chain by steps of two, 1 reaches every odd vertex and 2 every even one. */
  lemma {:induction false} RootReachesAlongChain(edges: seq<Edge>, n: int, v: int)
    requires ChainPrefix(edges, n) && 1 <= v <= n
    ensures ReachesAlong(edges, ParityRoot(v), v)
    decreases v
  {
    if v <= 2 {
      assert IsDirectedPath(edges, [v]);
    } else {
      RootReachesAlongChain(edges, n, v - 2);
      var p :| IsDirectedPath(edges, p) && p[0] == ParityRoot(v - 2) && p[|p| - 1] == v - 2;
      assert edges[v - 3] == (v - 2, v);
      assert Arc(edges, v - 2, v);
      var q := p + [v];
      forall i | 0 <= i < |q| - 1 ensures Arc(edges, q[i], q[i + 1]) {
        if i < |p| - 1 {
          assert q[i] == p[i] && q[i + 1] == p[i + 1];
        }
      }
      assert IsDirectedPath(edges, q) && q[0] == p[0];
    }
  }

  /** With the chain present and no parity-crossing edge, the smallest id that reaches
      vertex v along the edges is 1 when v is odd and 2 when v is even. */
  lemma SourceMinimum(edges: seq<Edge>, n: int, v: int)
    requires EndpointsInRange(edges, n) && ParityPreserving(edges) && ChainPrefix(edges, n)
    requires 1 <= v <= n
    ensures IsMinimumSource(edges, v, ParityRoot(v))
  {
    RootReachesAlongChain(edges, n, v);
    forall u | ReachesAlong(edges, u, v) ensures ParityRoot(v) <= u {
      SourceKeepsParity(edges, n, v, u);
    }
  }

  /** Under the same assumptions, c is the smallest id reaching v along the edges if and
      only if c is the parity root of v. */
  lemma MinimumSourceIsParityRoot(edges: seq<Edge>, n: int, v: int, c: int)
    requires EndpointsInRange(edges, n) && ParityPreserving(edges) && ChainPrefix(edges, n)
    requires 1 <= v <= n
    ensures IsMinimumSource(edges, v, c) <==> c == ParityRoot(v)
  {
    SourceMinimum(edges, n, v);
  }
}
