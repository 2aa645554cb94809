/** `dijkstra` and `minDistance` (src/dijkstra.c): distances from one node over a weight matrix,
    cut off at `INT_MAX` = 9. A zero weight means that there is no edge. */
module ShortestPaths {
  import opened Walks

  type Matrix = seq<seq<int>>

  ghost predicate IsMatrix(g: Matrix) {
    forall i | 0 <= i < |g| :: |g[i]| == |g| && forall j | 0 <= j < |g| :: g[i][j] >= 0
  }

  /** The rows of the `int **` argument. */
  ghost function Rows(graph: array2<int>): (g: Matrix)
    reads graph
    ensures |g| == graph.Length0
    ensures forall i | 0 <= i < |g| :: |g[i]| == graph.Length1 && forall j | 0 <= j < |g[i]| :: g[i][j] == graph[i, j]
  {
    seq(graph.Length0, i requires 0 <= i < graph.Length0 reads graph =>
      seq(graph.Length1, j requires 0 <= j < graph.Length1 reads graph => graph[i, j]))
  }

  // ----- the reference: lightest routes

  ghost predicate Route(g: Matrix, s: int, v: int, p: seq<int>)
    requires IsMatrix(g)
  {
    && |p| > 0 && p[0] == s && p[|p| - 1] == v
    && (forall i | 0 <= i < |p| :: 0 <= p[i] < |g|)
    && forall i | 0 <= i < |p| - 1 :: g[p[i]][p[i + 1]] != 0
  }

  ghost function Cost(g: Matrix, p: seq<int>): int
    requires IsMatrix(g) && forall i | 0 <= i < |p| :: 0 <= p[i] < |g|
  {
    if |p| <= 1 then 0 else Cost(g, p[..|p| - 1]) + g[p[|p| - 2]][p[|p| - 1]]
  }

  ghost predicate Attained(g: Matrix, s: int, v: int, d: int)
    requires IsMatrix(g)
  {
    exists p :: Route(g, s, v, p) && Cost(g, p) == d
  }

  ghost predicate LowerBound(g: Matrix, s: int, v: int, d: int)
    requires IsMatrix(g)
  {
    forall p | Route(g, s, v, p) :: d <= Cost(g, p)
  }

  /** `d` is the smaller of 9 and the cost of the lightest route from `s` to `v`. */
  ghost predicate LightestCost(g: Matrix, s: int, v: int, d: int)
    requires IsMatrix(g)
  {
    0 <= d <= INFINITY && LowerBound(g, s, v, d) && (d < INFINITY ==> Attained(g, s, v, d))
  }

  // ----- the algorithm

  /** `minDistance`: the last unsettled node with the smallest distance. In C the answer is undefined
      when no unsettled node is within 9. */
  method MinDistance(dist: array<int>, sptSet: array<int>) returns (minIndex: int)
    requires dist.Length == sptSet.Length
    requires exists v :: 0 <= v < dist.Length && sptSet[v] == -1 && dist[v] <= INFINITY
    ensures 0 <= minIndex < dist.Length && sptSet[minIndex] == -1
    ensures forall v | 0 <= v < dist.Length && sptSet[v] == -1 :: dist[minIndex] <= dist[v]
    ensures forall v | minIndex < v < dist.Length && sptSet[v] == -1 :: dist[minIndex] < dist[v]
  {
    var min := INFINITY;
    minIndex := -1;
    for v := 0 to dist.Length
      invariant -1 <= minIndex < v
      invariant min <= INFINITY
      invariant minIndex == -1 ==>
                  min == INFINITY && forall w | 0 <= w < v && sptSet[w] == -1 :: INFINITY < dist[w]
      invariant minIndex != -1 ==>
                  && sptSet[minIndex] == -1 && min == dist[minIndex]
                  && (forall w | 0 <= w < v && sptSet[w] == -1 :: min <= dist[w])
                  && forall w | minIndex < w < v && sptSet[w] == -1 :: min < dist[w]
    {
      if sptSet[v] == -1 && dist[v] <= min {
        min := dist[v];
        minIndex := v;
      }
    }
  }

  /** The edges out of settled nodes have been used; while `u` is being processed, only those to nodes below `k`. */
  ghost predicate Relaxed(g: Matrix, dist: seq<int>, spt: seq<int>, u: int, k: int)
    requires IsMatrix(g) && |dist| == |spt| == |g|
  {
    forall x, v | 0 <= x < |g| && 0 <= v < |g| && spt[x] != -1 && (x != u || v < k) && g[x][v] != 0 && dist[x] != INFINITY ::
      dist[v] <= dist[x] + g[x][v]
  }

  /** What both loops keep. */
  ghost predicate Sound(g: Matrix, src: int, dist: seq<int>, spt: seq<int>)
    requires IsMatrix(g)
  {
    && |dist| == |spt| == |g| && 0 <= src < |g| && dist[src] == 0
    && (forall v | 0 <= v < |g| :: 0 <= dist[v] <= INFINITY && (dist[v] < INFINITY ==> Attained(g, src, v, dist[v])))
    && forall u, v | 0 <= u < |g| && 0 <= v < |g| && spt[u] != -1 && spt[v] == -1 :: dist[u] <= dist[v]
  }

  /** `u` was settled last: no settled node is farther. */
  ghost predicate Farthest(dist: seq<int>, spt: seq<int>, u: int)
    requires |dist| == |spt|
  {
    0 <= u < |spt| && spt[u] != -1 && forall v | 0 <= v < |spt| && spt[v] != -1 :: dist[v] <= dist[u]
  }

  ghost function SettledSet(spt: seq<int>): set<int> {
    set v | 0 <= v < |spt| && spt[v] != -1
  }

  /** The inner statement of the double loop, on values. */
  ghost function Relax(g: Matrix, dist: seq<int>, spt: seq<int>, u: int, v: int): seq<int>
    requires IsMatrix(g) && |dist| == |spt| == |g| && 0 <= u < |g| && 0 <= v < |g|
  {
    if spt[v] == -1 && g[u][v] != 0 && dist[u] != INFINITY && dist[u] + g[u][v] < dist[v]
    then dist[v := dist[u] + g[u][v]] else dist
  }

  /** The inner statement of `dijkstra`: the edge from `u` to `v`. */
  method RelaxEdge(graph: array2<int>, dist: array<int>, sptSet: array<int>, u: int, v: int)
    requires graph.Length0 == graph.Length1 == dist.Length == sptSet.Length
    requires 0 <= u < dist.Length && 0 <= v < dist.Length && IsMatrix(Rows(graph))
    modifies dist
    ensures dist[..] == Relax(Rows(graph), old(dist[..]), old(sptSet[..]), u, v)
  {
    if sptSet[v] == -1 && graph[u, v] != 0 && dist[u] != INFINITY && dist[u] + graph[u, v] < dist[v] {
      dist[v] := dist[u] + graph[u, v];
    }
  }

  /** The inner loop of `dijkstra`: use the edges out of `u`. */
  method RelaxRow(graph: array2<int>, ghost src: int, dist: array<int>, sptSet: array<int>, u: int)
    requires graph.Length0 == graph.Length1 == dist.Length == sptSet.Length && dist != sptSet
    requires IsMatrix(Rows(graph)) && Sound(Rows(graph), src, dist[..], sptSet[..])
    requires Farthest(dist[..], sptSet[..], u) && Relaxed(Rows(graph), dist[..], sptSet[..], u, 0)
    modifies dist
    ensures Sound(Rows(graph), src, dist[..], sptSet[..])
    ensures Relaxed(Rows(graph), dist[..], sptSet[..], -1, 0)
  {
    ghost var g, spt, now := Rows(graph), sptSet[..], dist[..];
    for v := 0 to dist.Length
      invariant dist[..] == now
      invariant Sound(g, src, now, spt) && Farthest(now, spt, u)
      invariant Relaxed(g, now, spt, u, v)
    {
      RelaxSound(g, src, now, spt, u, v);
      RelaxRelaxes(g, src, now, spt, u, v);
      RelaxEdge(graph, dist, sptSet, u, v);
      now := Relax(g, now, spt, u, v);
    }
  }

  /** One iteration of the outer loop of `dijkstra`: settle the nearest open node and use its edges. */
  method SettleNearest(graph: array2<int>, ghost src: int, dist: array<int>, sptSet: array<int>)
    requires graph.Length0 == graph.Length1 == dist.Length == sptSet.Length && dist != sptSet
    requires IsMatrix(Rows(graph)) && Sound(Rows(graph), src, dist[..], sptSet[..])
    requires Relaxed(Rows(graph), dist[..], sptSet[..], -1, 0)
    requires |SettledSet(sptSet[..])| < dist.Length
    modifies dist, sptSet
    ensures Sound(Rows(graph), src, dist[..], sptSet[..])
    ensures Relaxed(Rows(graph), dist[..], sptSet[..], -1, 0)
    ensures |SettledSet(sptSet[..])| == |SettledSet(old(sptSet[..]))| + 1
  {
    ghost var open := UnsettledExists(sptSet[..]);
    assert sptSet[open] == -1 && dist[open] == dist[..][open];
    var u := MinDistance(dist, sptSet);
    SettleSound(Rows(graph), src, dist[..], sptSet[..], u);
    ghost var settled := sptSet[..][u := 1];
    sptSet[u] := 1;
    assert sptSet[..] == settled;
    RelaxRow(graph, src, dist, sptSet, u);
  }

  /** `dijkstra`: exact for every matrix of non-negative weights, although one node is never settled
      and nodes at 9 are never used. */
  method Dijkstra(graph: array2<int>, src: int) returns (dist: array<int>)
    requires graph.Length0 == graph.Length1 && 0 <= src < graph.Length0
    requires IsMatrix(Rows(graph))
    ensures fresh(dist) && dist.Length == graph.Length0
    ensures forall v | 0 <= v < dist.Length :: LightestCost(Rows(graph), src, v, dist[v])
  {
    var size := graph.Length0;
    dist := new int[size](_ => INFINITY);
    var sptSet := new int[size](_ => -1);
    dist[src] := 0;
    InitiallySound(Rows(graph), src, dist[..], sptSet[..]);
    for count := 0 to size - 1
      invariant Sound(Rows(graph), src, dist[..], sptSet[..])
      invariant Relaxed(Rows(graph), dist[..], sptSet[..], -1, 0)
      invariant |SettledSet(sptSet[..])| == count
    {
      SettleNearest(graph, src, dist, sptSet);
    }
    AllRelaxed(Rows(graph), src, dist[..], sptSet[..]);
    SoundIsLightest(Rows(graph), src, dist[..], sptSet[..]);
    assert forall v | 0 <= v < size :: dist[v] == dist[..][v];
  }

  // ----- lemmas

  lemma InitiallySound(g: Matrix, src: int, dist: seq<int>, spt: seq<int>)
    requires IsMatrix(g) && |dist| == |spt| == |g| && 0 <= src < |g| && dist[src] == 0
    requires forall v | 0 <= v < |g| :: spt[v] == -1 && (v != src ==> dist[v] == INFINITY)
    ensures Sound(g, src, dist, spt) && Relaxed(g, dist, spt, -1, 0) && |SettledSet(spt)| == 0
  {
    assert Route(g, src, src, [src]) && Cost(g, [src]) == 0;
    assert SettledSet(spt) == {};
  }

  lemma RelaxSound(g: Matrix, src: int, dist: seq<int>, spt: seq<int>, u: int, v: int)
    requires IsMatrix(g) && Sound(g, src, dist, spt) && 0 <= v < |g| && Farthest(dist, spt, u)
    ensures Sound(g, src, Relax(g, dist, spt, u, v), spt)
    ensures Farthest(Relax(g, dist, spt, u, v), spt, u)
  {
    var dist' := Relax(g, dist, spt, u, v);
    if dist' != dist {
      RouteStep(g, src, u, v, dist[u]);
      assert dist'[v] == dist[u] + g[u][v];
    }
    assert forall x | 0 <= x < |g| && x != v :: dist'[x] == dist[x];
  }

  lemma RelaxRelaxes(g: Matrix, src: int, dist: seq<int>, spt: seq<int>, u: int, v: int)
    requires IsMatrix(g) && Sound(g, src, dist, spt) && 0 <= v < |g| && Farthest(dist, spt, u)
    requires Relaxed(g, dist, spt, u, v)
    ensures Relaxed(g, Relax(g, dist, spt, u, v), spt, u, v + 1)
  {
    var dist' := Relax(g, dist, spt, u, v);
    assert forall x | 0 <= x < |g| :: dist'[x] <= dist[x];
    assert forall x | 0 <= x < |g| && spt[x] != -1 :: dist'[x] == dist[x];
    forall x, w | 0 <= x < |g| && 0 <= w < |g| && spt[x] != -1 && (x != u || w < v + 1) && g[x][w] != 0 && dist'[x] != INFINITY
      ensures dist'[w] <= dist'[x] + g[x][w]
    {
      if x == u && w == v {
      } else {
        assert dist[w] <= dist[x] + g[x][w];
      }
    }
  }

  /** Settling the node that `minDistance` returned. */
  lemma SettleSound(g: Matrix, src: int, dist: seq<int>, spt: seq<int>, u: int)
    requires IsMatrix(g) && Sound(g, src, dist, spt) && Relaxed(g, dist, spt, -1, 0)
    requires 0 <= u < |g| && spt[u] == -1 && forall v | 0 <= v < |g| && spt[v] == -1 :: dist[u] <= dist[v]
    ensures Sound(g, src, dist, spt[u := 1]) && Farthest(dist, spt[u := 1], u)
    ensures Relaxed(g, dist, spt[u := 1], u, 0)
    ensures |SettledSet(spt[u := 1])| == |SettledSet(spt)| + 1
  {
    assert SettledSet(spt[u := 1]) == SettledSet(spt) + {u};
  }

  lemma RouteStep(g: Matrix, s: int, u: int, v: int, d: int)
    requires IsMatrix(g) && 0 <= u < |g| && 0 <= v < |g| && g[u][v] != 0 && Attained(g, s, u, d)
    ensures Attained(g, s, v, d + g[u][v])
  {
    var p :| Route(g, s, u, p) && Cost(g, p) == d;
    RouteExtend(g, s, u, v, p);
  }

  lemma RouteExtend(g: Matrix, s: int, u: int, v: int, p: seq<int>)
    requires IsMatrix(g) && Route(g, s, u, p) && 0 <= v < |g| && g[u][v] != 0
    ensures Route(g, s, v, p + [v]) && Cost(g, p + [v]) == Cost(g, p) + g[u][v]
  {
    assert (p + [v])[..|p|] == p;
  }

  ghost function Range(n: nat): (r: set<int>)
    ensures |r| == n && forall v :: v in r <==> 0 <= v < n
  {
    if n == 0 then {} else Range(n - 1) + {n - 1}
  }

  lemma SubsetCardinality(a: set<int>, b: set<int>)
    requires a <= b
    ensures |a| + |b - a| == |b|
  {
    assert b == a + (b - a);
  }

  /** Fewer settled nodes than nodes: one is left for `minDistance`. */
  lemma UnsettledExists(spt: seq<int>) returns (v: int)
    requires |SettledSet(spt)| < |spt|
    ensures 0 <= v < |spt| && spt[v] == -1
  {
    SubsetCardinality(SettledSet(spt), Range(|spt|));
    assert Range(|spt|) - SettledSet(spt) != {};
    v :| v in Range(|spt|) - SettledSet(spt);
  }

  lemma AtMostOneUnsettled(spt: seq<int>, a: int, b: int)
    requires |SettledSet(spt)| >= |spt| - 1
    requires 0 <= a < |spt| && 0 <= b < |spt| && spt[a] == -1 && spt[b] == -1
    ensures a == b
  {
    var settled := SettledSet(spt);
    assert |settled + {a}| == |settled| + 1;
    assert a != b ==> |settled + {a} + {b}| == |settled| + 2;
    SubsetCardinality(settled + {a} + {b}, Range(|spt|));
  }

  /** The node that is never settled is no closer than any other, so its edges could not improve anything. */
  lemma AllRelaxed(g: Matrix, src: int, dist: seq<int>, spt: seq<int>)
    requires IsMatrix(g) && Sound(g, src, dist, spt) && Relaxed(g, dist, spt, -1, 0)
    requires |SettledSet(spt)| >= |g| - 1
    ensures forall u, v | 0 <= u < |g| && 0 <= v < |g| && g[u][v] != 0 :: dist[v] <= dist[u] + g[u][v]
  {
    forall u, v | 0 <= u < |g| && 0 <= v < |g| && g[u][v] != 0
      ensures dist[v] <= dist[u] + g[u][v]
    {
      if spt[u] == -1 && spt[v] == -1 {
        AtMostOneUnsettled(spt, u, v);
      }
    }
  }

  lemma {:induction false} RouteBound(g: Matrix, s: int, v: int, p: seq<int>, dist: seq<int>)
    requires IsMatrix(g) && Route(g, s, v, p) && |dist| == |g| && dist[s] == 0
    requires forall x, y | 0 <= x < |g| && 0 <= y < |g| && g[x][y] != 0 :: dist[y] <= dist[x] + g[x][y]
    ensures dist[v] <= Cost(g, p)
    decreases |p|
  {
    if |p| > 1 {
      RouteBound(g, s, p[|p| - 2], p[..|p| - 1], dist);
    }
  }

  lemma SoundIsLightest(g: Matrix, src: int, dist: seq<int>, spt: seq<int>)
    requires IsMatrix(g) && Sound(g, src, dist, spt)
    requires forall x, y | 0 <= x < |g| && 0 <= y < |g| && g[x][y] != 0 :: dist[y] <= dist[x] + g[x][y]
    ensures forall v | 0 <= v < |g| :: LightestCost(g, src, v, dist[v])
  {
    forall v, p | 0 <= v < |g| && Route(g, src, v, p)
      ensures dist[v] <= Cost(g, p)
    {
      RouteBound(g, src, v, p, dist);
    }
  }

  /** The cut-off cost is unique, so the array that `dijkstra` returns is determined. */
  lemma LightestCostUnique(g: Matrix, s: int, v: int, d: int, e: int)
    requires IsMatrix(g) && LightestCost(g, s, v, d) && LightestCost(g, s, v, e)
    ensures d == e
  {
  }
}
