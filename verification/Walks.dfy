/** Walks and hop counts in a topology: the reference notion of distance that the
    breadth-first generator and the shortest-path code are both measured against. */
module Walks {

  type Name = string

  /** Node name to the list of its neighbours' names, as `read_links` builds it. */
  type Links = map<Name, seq<Name>>

  /** At this many hops the name server stops telling distances apart (`INT_MAX` in dijkstra.c). */
  const INFINITY := 9

  ghost predicate Edge(g: Links, a: Name, b: Name) {
    a in g && b in g[a]
  }

  /** `p` is a walk from `a` to `b`; it has `|p| - 1` hops. */
  ghost predicate Walk(g: Links, a: Name, b: Name, p: seq<Name>) {
    && |p| > 0 && p[0] == a && p[|p| - 1] == b
    && forall i | 0 <= i < |p| - 1 :: Edge(g, p[i], p[i + 1])
  }

  /** Some walk leads from `a` to `b` in at most `n` hops. */
  ghost predicate Within(g: Links, a: Name, b: Name, n: int) {
    exists p :: Walk(g, a, b, p) && |p| - 1 <= n
  }

  ghost predicate Reachable(g: Links, a: Name, b: Name) {
    exists p :: Walk(g, a, b, p)
  }

  /** `d` is the hop distance from `a` to `b`, cut off at 9. */
  ghost predicate HopDistance(g: Links, a: Name, b: Name, d: int) {
    && 0 <= d <= INFINITY
    && (d < INFINITY ==> Within(g, a, b, d))
    && !Within(g, a, b, d - 1)
  }

  /** Every node that is listed as a neighbour is a node. */
  ghost predicate Closed(g: Links) {
    forall a, b | a in g && b in g[a] :: b in g
  }

  ghost predicate Symmetric(g: Links) {
    forall a, b | Edge(g, a, b) :: Edge(g, b, a)
  }

  function Elems(s: seq<Name>): set<Name> {
    set x | x in s
  }

  ghost predicate NoDuplicates(s: seq<Name>) {
    forall i, j | 0 <= i < j < |s| :: s[i] != s[j]
  }

  // ----- lemmas

  lemma WalkExtend(g: Links, a: Name, b: Name, c: Name, p: seq<Name>)
    requires Walk(g, a, b, p) && Edge(g, b, c)
    ensures Walk(g, a, c, p + [c])
  {
  }

  lemma WalkPrepend(g: Links, a: Name, b: Name, c: Name, p: seq<Name>)
    requires Edge(g, a, b) && Walk(g, b, c, p)
    ensures Walk(g, a, c, [a] + p)
  {
  }

  lemma WalkTail(g: Links, a: Name, b: Name, p: seq<Name>)
    requires Walk(g, a, b, p) && |p| > 1
    ensures Edge(g, a, p[1]) && Walk(g, p[1], b, p[1..])
  {
    assert Edge(g, p[0], p[1]);
  }

  /** A walk to another node has a hop; one without hops goes nowhere, in any topology. */
  lemma WalkEnds(g: Links, h: Links, a: Name, b: Name, p: seq<Name>)
    requires Walk(g, a, b, p)
    ensures |p| > 0 && p[0] == a && (|p| == 1 ==> a == b && Walk(h, a, b, p))
  {
  }

  lemma WalkConcat(g: Links, a: Name, b: Name, c: Name, p: seq<Name>, q: seq<Name>)
    requires Walk(g, a, b, p) && Walk(g, b, c, q)
    ensures Walk(g, a, c, p + q[1..])
  {
  }

  lemma WithinSelf(g: Links, a: Name, n: nat)
    ensures Within(g, a, a, n)
  {
    assert Walk(g, a, a, [a]);
  }

  lemma WithinExtend(g: Links, a: Name, b: Name, c: Name, n: int)
    requires Within(g, a, b, n) && Edge(g, b, c)
    ensures Within(g, a, c, n + 1)
  {
    var p :| Walk(g, a, b, p) && |p| - 1 <= n;
    WalkExtend(g, a, b, c, p);
  }

  /** The last hop of a walk to another node. */
  lemma WithinLastHop(g: Links, a: Name, c: Name, n: int) returns (b: Name)
    requires Within(g, a, c, n) && a != c
    ensures Within(g, a, b, n - 1) && Edge(g, b, c)
  {
    var p :| Walk(g, a, c, p) && |p| - 1 <= n;
    b := p[|p| - 2];
    assert Walk(g, a, b, p[..|p| - 1]);
  }

  lemma WithinMonotone(g: Links, a: Name, b: Name, m: int, n: int)
    requires Within(g, a, b, m) && m <= n
    ensures Within(g, a, b, n)
  {
  }

  /** A set closed under edges keeps every walk that starts in it. */
  lemma {:induction false} WalkStaysInside(g: Links, inside: set<Name>, a: Name, b: Name, p: seq<Name>)
    requires Walk(g, a, b, p) && a in inside
    requires forall x, y | x in inside && Edge(g, x, y) :: y in inside
    ensures forall x | x in p :: x in inside
    decreases |p|
  {
    if |p| > 1 {
      assert Edge(g, p[0], p[1]);
      WalkStaysInside(g, inside, p[1], b, p[1..]);
    }
  }

  /** The cut-off hop distance is unique. */
  lemma HopDistanceUnique(g: Links, a: Name, b: Name, d: int, e: int)
    requires HopDistance(g, a, b, d) && HopDistance(g, a, b, e)
    ensures d == e
  {
    if d < e {
      WithinMonotone(g, a, b, d, e - 1);
    } else if e < d {
      WithinMonotone(g, a, b, e, d - 1);
    }
  }

  /** The cut-off in numbers: up to eight hops are told apart. */
  lemma CutAtNine(g: Links, a: Name, b: Name, d: int)
    ensures HopDistance(g, a, b, d) <==>
              (0 <= d <= 8 && Within(g, a, b, d) && !Within(g, a, b, d - 1)) || (d == 9 && !Within(g, a, b, 8))
  {
  }

  /** Two topologies in which the same nodes are within reach have the same distances. */
  lemma HopDistanceTransfer(g: Links, h: Links, a: Name, b: Name, d: int)
    requires HopDistance(g, a, b, d)
    requires forall n: nat :: Within(g, a, b, n) <==> Within(h, a, b, n)
    ensures HopDistance(h, a, b, d)
  {
  }

  /** Every pair of nodes has a cut-off distance. */
  lemma HopDistanceExists(g: Links, a: Name, b: Name) returns (d: int)
    ensures HopDistance(g, a, b, d)
  {
    d := 0;
    while d < INFINITY && !Within(g, a, b, d)
      invariant 0 <= d <= INFINITY && !Within(g, a, b, d - 1)
    {
      d := d + 1;
    }
  }
}
