/** Server choice over the link-state database, on values: the matrix that `exist_route` fills, what distances
    over it mean, which server `query_dns` picks, and for which client that is right (src/dijkstra.c). */
module Selection {
  import opened Walks
  import opened Generator
  import opened Database
  import opened ShortestPaths

  /** `exist_route`: 1 for an advertised neighbour, and 9 in every other case, the diagonal included. */
  function LinkWeight(db: seq<Lsa>, i: nat, j: nat): int
    requires i < |db| && j < |db|
  {
    if i == j then INFINITY else if db[j].sender in db[i].neighbors then 1 else INFINITY
  }

  ghost function DbMatrix(db: seq<Lsa>): (g: Matrix)
    ensures IsMatrix(g) && |g| == |db|
    ensures forall i, j | 0 <= i < |db| && 0 <= j < |db| :: g[i][j] == LinkWeight(db, i, j)
  {
    seq(|db|, i requires 0 <= i < |db| => seq(|db|, j requires 0 <= j < |db| => LinkWeight(db, i, j)))
  }

  ghost function Senders(db: seq<Lsa>): set<Name> {
    set i | 0 <= i < |db| :: db[i].sender
  }

  /** The directed graph that the database advertises. */
  ghost function Adverts(db: seq<Lsa>): (g: Links)
    ensures g.Keys == Senders(db)
    ensures DistinctSenders(db) ==> forall i | 0 <= i < |db| :: db[i].sender in g && g[db[i].sender] == db[i].neighbors
  {
    var g := map n | n in Senders(db) :: (EntryExists(db, n); db[Find(db, n)].neighbors);
    assert forall i | 0 <= i < |db| :: db[i].sender in Senders(db);
    g
  }

  lemma EntryExists(db: seq<Lsa>, name: Name)
    requires name in Senders(db)
    ensures Find(db, name) < |db|
  {
  }

  // ----- a 9 in the matrix is as good as no entry

  /** A route cheaper than 9 uses advertised links only, one unit each. */
  lemma {:induction false} CheapRouteIsWalk(db: seq<Lsa>, i: int, j: int, p: seq<int>)
    requires DistinctSenders(db) && Route(DbMatrix(db), i, j, p) && Cost(DbMatrix(db), p) < INFINITY
    ensures 0 <= Cost(DbMatrix(db), p)
    ensures Within(Adverts(db), db[i].sender, db[j].sender, Cost(DbMatrix(db), p))
    decreases |p|
  {
    var g := DbMatrix(db);
    if |p| == 1 {
      WithinSelf(Adverts(db), db[i].sender, 0);
    } else {
      var k := p[|p| - 2];
      CostNonNegative(g, i, k, p[..|p| - 1]);
      assert g[k][j] == LinkWeight(db, k, j);
      CheapRouteIsWalk(db, i, k, p[..|p| - 1]);
      WithinExtend(Adverts(db), db[i].sender, db[k].sender, db[j].sender, Cost(g, p) - 1);
    }
  }

  lemma {:induction false} CostNonNegative(g: Matrix, i: int, j: int, p: seq<int>)
    requires IsMatrix(g) && Route(g, i, j, p)
    ensures Cost(g, p) >= 0
    decreases |p|
  {
    if |p| > 1 {
      CostNonNegative(g, i, p[|p| - 2], p[..|p| - 1]);
    }
  }

  /** An advertised link to another node is an edge of weight 1. */
  lemma AdvertIsEdge(db: seq<Lsa>, k: int, j: int)
    requires DistinctSenders(db) && 0 <= k < |db| && 0 <= j < |db| && Edge(Adverts(db), db[k].sender, db[j].sender)
    ensures k != j ==> DbMatrix(db)[k][j] == 1
  {
    assert DbMatrix(db)[k][j] == LinkWeight(db, k, j);
  }

  /** Where the last link of a walk over advertised links starts: at a node with an entry. */
  lemma LastAdvert(db: seq<Lsa>, a: Name, b: Name, w: seq<Name>) returns (k: int)
    requires Walk(Adverts(db), a, b, w) && |w| > 1
    ensures 0 <= k < |db| && Walk(Adverts(db), a, db[k].sender, w[..|w| - 1]) && Edge(Adverts(db), db[k].sender, b)
  {
    assert Edge(Adverts(db), w[|w| - 2], w[|w| - 1]);
    k :| 0 <= k < |db| && db[k].sender == w[|w| - 2];
  }

  lemma NoLink(db: seq<Lsa>, i: int, j: int, w: seq<Name>)
    requires DistinctSenders(db) && 0 <= i < |db| && 0 <= j < |db| && |w| == 1
    requires Walk(Adverts(db), db[i].sender, db[j].sender, w)
    ensures Route(DbMatrix(db), i, j, [i]) && Cost(DbMatrix(db), [i]) == 0
  {
  }

  /** A walk over advertised links is a route that costs no more than its hops. */
  lemma {:induction false} WalkIsCheapRoute(db: seq<Lsa>, i: int, j: int, w: seq<Name>) returns (p: seq<int>)
    requires DistinctSenders(db) && 0 <= i < |db| && 0 <= j < |db|
    requires Walk(Adverts(db), db[i].sender, db[j].sender, w)
    ensures Route(DbMatrix(db), i, j, p) && Cost(DbMatrix(db), p) <= |w| - 1
    decreases |w|
  {
    hide LinkWeight, Route, Cost, Edge, DistinctSenders;
    if |w| == 1 {
      NoLink(db, i, j, w);
      p := [i];
    } else {
      var k := LastAdvert(db, db[i].sender, db[j].sender, w);
      p := WalkIsCheapRoute(db, i, k, w[..|w| - 1]);
      AdvertIsEdge(db, k, j);
      if k != j {
        RouteExtend(DbMatrix(db), i, k, j, p);
        p := p + [j];
      }
    }
  }

  lemma CostIsHops(db: seq<Lsa>, i: int, j: int, d: int)
    requires DistinctSenders(db) && 0 <= i < |db| && 0 <= j < |db| && LightestCost(DbMatrix(db), i, j, d)
    ensures HopDistance(Adverts(db), db[i].sender, db[j].sender, d)
  {
    hide Cost, Walk, LinkWeight;
    if d < INFINITY {
      var p :| Route(DbMatrix(db), i, j, p) && Cost(DbMatrix(db), p) == d;
      CheapRouteIsWalk(db, i, j, p);
    }
    forall w | Walk(Adverts(db), db[i].sender, db[j].sender, w)
      ensures d <= |w| - 1
    {
      var p := WalkIsCheapRoute(db, i, j, w);
    }
  }

  lemma HopsAreCost(db: seq<Lsa>, i: int, j: int, d: int)
    requires DistinctSenders(db) && 0 <= i < |db| && 0 <= j < |db|
    requires HopDistance(Adverts(db), db[i].sender, db[j].sender, d)
    ensures LightestCost(DbMatrix(db), i, j, d)
  {
    hide Cost, Walk, LinkWeight;
    forall p | Route(DbMatrix(db), i, j, p)
      ensures d <= Cost(DbMatrix(db), p)
    {
      if Cost(DbMatrix(db), p) < d {
        CheapRouteIsWalk(db, i, j, p);
      }
    }
    if d < INFINITY {
      var w :| Walk(Adverts(db), db[i].sender, db[j].sender, w) && |w| - 1 <= d;
      var p := WalkIsCheapRoute(db, i, j, w);
      assert Cost(DbMatrix(db), p) == d;
    }
  }

  /** Writing "no edge" as 9 is sound: the cut-off cost over the matrix is the cut-off number of hops
      in the advertised graph. */
  lemma MatrixDistanceIsHops(db: seq<Lsa>, i: int, j: int, d: int)
    requires DistinctSenders(db) && 0 <= i < |db| && 0 <= j < |db|
    ensures LightestCost(DbMatrix(db), i, j, d) <==> HopDistance(Adverts(db), db[i].sender, db[j].sender, d)
  {
    hide *;
    if LightestCost(DbMatrix(db), i, j, d) {
      CostIsHops(db, i, j, d);
    }
    if HopDistance(Adverts(db), db[i].sender, db[j].sender, d) {
      HopsAreCost(db, i, j, d);
    }
  }

  // ----- which server is picked

  /** The `strncmp` of `query_dns`: the node's name is a prefix of the server's text. */
  predicate Matches(sname: string, name: Name) {
    name <= sname
  }

  /** The address in a server's text, without the newline that `getline` leaves. */
  function Address(sname: string): string {
    if sname != "" && sname[|sname| - 1] == '\n' then sname[..|sname| - 1] else sname
  }

  /** Where a server really is: at the node that its address names. */
  predicate SitsAt(sname: string, name: Name) {
    Address(sname) == name
  }

  lemma MatchesAddress(sname: string, name: Name)
    requires '\n' !in name
    ensures Matches(sname, name) <==> name <= Address(sname)
  {
    var address := Address(sname);
    assert address == sname[..|address|] && (address != sname ==> sname[|address|] == '\n');
  }

  /** Each server with the node it sits at. */
  ghost predicate OwnTexts(db: seq<Lsa>, snames: seq<string>, at: seq<int>) {
    |at| == |snames| && forall k | 0 <= k < |at| :: 0 <= at[k] < |db| && SitsAt(snames[k], db[at[k]].sender)
  }

  /** Server `k` at node `i` is the pick: nearest below 9, then lowest graph index, then first in the server list. */
  ghost predicate IsPick(db: seq<Lsa>, snames: seq<string>, dist: seq<int>, i: int, k: int)
    requires |dist| == |db|
  {
    && 0 <= i < |db| && 0 <= k < |snames| && Matches(snames[k], db[i].sender) && dist[i] < INFINITY
    && forall i', k' | 0 <= i' < |db| && 0 <= k' < |snames| && Matches(snames[k'], db[i'].sender) ::
         dist[i] < dist[i'] || (dist[i] == dist[i'] && (i < i' || (i == i' && k <= k')))
  }

  /** No server matches a node below 9. */
  ghost predicate NoPick(db: seq<Lsa>, snames: seq<string>, dist: seq<int>)
    requires |dist| == |db|
  {
    forall i, k | 0 <= i < |db| && 0 <= k < |snames| && Matches(snames[k], db[i].sender) :: dist[i] >= INFINITY
  }

  /** The distances that `dijkstra` returns for source `src`. */
  ghost predicate DistancesFrom(db: seq<Lsa>, src: int, dist: seq<int>)
  {
    |dist| == |db| && forall v | 0 <= v < |db| :: LightestCost(DbMatrix(db), src, v, dist[v])
  }

  /** No node name is a prefix of another. */
  ghost predicate PrefixFree(db: seq<Lsa>) {
    forall i, j | 0 <= i < |db| && 0 <= j < |db| && db[i].sender <= db[j].sender :: i == j
  }

  ghost predicate OneLine(db: seq<Lsa>) {
    forall i | 0 <= i < |db| :: '\n' !in db[i].sender
  }

  /** No server sits nearer to node `c` than server `k`. */
  ghost predicate NearestTo(db: seq<Lsa>, at: seq<int>, c: int, k: int) {
    && 0 <= k < |at|
    && forall k', d, d' | 0 <= k' < |at| && LightestCost(DbMatrix(db), c, at[k], d)
                          && LightestCost(DbMatrix(db), c, at[k'], d') :: d <= d'
  }

  /** `query_dns` may answer server `k` for this server list: its source is always node 0. */
  ghost predicate Answers(db: seq<Lsa>, snames: seq<string>, k: int) {
    exists dist, i :: DistancesFrom(db, 0, dist) && IsPick(db, snames, dist, i, k)
  }

  /** Among prefix-free names the pick for any source is a server that sits nearest to it. */
  lemma PickIsNearest(db: seq<Lsa>, snames: seq<string>, at: seq<int>, src: int, dist: seq<int>, i: int, k: int)
    requires OneLine(db) && PrefixFree(db) && OwnTexts(db, snames, at)
    requires DistancesFrom(db, src, dist) && IsPick(db, snames, dist, i, k)
    ensures NearestTo(db, at, src, k)
  {
    MatchesAddress(snames[k], db[i].sender);
    assert i == at[k];
    forall k', d, d' | 0 <= k' < |at| && LightestCost(DbMatrix(db), src, at[k], d)
                       && LightestCost(DbMatrix(db), src, at[k'], d')
      ensures d <= d'
    {
      MatchesAddress(snames[k'], db[at[k']].sender);
      LightestCostUnique(DbMatrix(db), src, at[k], d, dist[i]);
      LightestCostUnique(DbMatrix(db), src, at[k'], d', dist[at[k']]);
    }
  }

  /** The distances from node `c`, at which only `c` itself is at 0. */
  lemma OwnDistances(db: seq<Lsa>, c: int) returns (dist: seq<int>)
    requires DistinctSenders(db) && 0 <= c < |db|
    ensures |dist| == |db| && DistancesFrom(db, c, dist)
    ensures forall v | 0 <= v < |db| :: 0 <= dist[v] && (dist[v] == 0 <==> v == c)
  {
    hide LightestCost;
    dist := DistancesExist(db, c, |db|);
    forall v | 0 <= v < |db|
      ensures 0 <= dist[v] && (dist[v] == 0 <==> v == c)
    {
      ZeroCost(db, c, v, dist[v]);
    }
  }

  /** The first server is picked when it matches the source. */
  lemma FirstIsPick(db: seq<Lsa>, snames: seq<string>, dist: seq<int>, c: int)
    requires |dist| == |db| && 0 <= c < |db| && snames != [] && Matches(snames[0], db[c].sender)
    requires forall v | 0 <= v < |db| :: 0 <= dist[v] && (dist[v] == 0 <==> v == c)
    ensures IsPick(db, snames, dist, c, 0)
  {
  }

  /** A server at another node is not the nearest when there is one at the node itself. */
  lemma OtherIsFarther(db: seq<Lsa>, at: seq<int>, c: int, dist: seq<int>)
    requires DistancesFrom(db, c, dist) && |at| == 2 && 0 <= at[0] < |db| && at[1] == c && 0 <= c < |db|
    requires dist[c] < dist[at[0]]
    ensures !NearestTo(db, at, c, 0)
  {
    hide LightestCost;
    assert LightestCost(DbMatrix(db), c, at[0], dist[at[0]]) && LightestCost(DbMatrix(db), c, at[1], dist[c]);
  }

  lemma AddressOfLine(name: Name)
    ensures SitsAt(name + "\n", name)
  {
    assert (name + "\n")[..|name|] == name;
  }

  /** A server at node `j`, whose name starts with that of node `i`, is preferred to one at `i` itself. */
  lemma WrongWhenPrefix(db: seq<Lsa>, i: int, j: int)
    requires DistinctSenders(db)
    requires 0 <= i < |db| && 0 <= j < |db| && i != j && db[i].sender <= db[j].sender
    ensures var snames := [db[j].sender + "\n", db[i].sender + "\n"];
      && OwnTexts(db, snames, [j, i])
      && (exists dist :: DistancesFrom(db, i, dist) && IsPick(db, snames, dist, i, 0))
      && !NearestTo(db, [j, i], i, 0)
  {
    hide IsPick, NearestTo, DistancesFrom, SitsAt;
    var snames := [db[j].sender + "\n", db[i].sender + "\n"];
    AddressOfLine(db[i].sender);
    AddressOfLine(db[j].sender);
    var dist := OwnDistances(db, i);
    FirstIsPick(db, snames, dist, i);
    OtherIsFarther(db, [j, i], i, dist);
  }

  /** The prefix comparison picks a server that sits nearest, for every source and every list of servers that sit
      at nodes, exactly when no node name is a prefix of another. */
  lemma PickOwnNearestExactly(db: seq<Lsa>)
    requires DistinctSenders(db) && OneLine(db)
    ensures (forall snames, at, src, dist, i, k | 0 <= src < |db| && OwnTexts(db, snames, at)
                                                  && DistancesFrom(db, src, dist) && IsPick(db, snames, dist, i, k) ::
               NearestTo(db, at, src, k))
            <==> PrefixFree(db)
  {
    if PrefixFree(db) {
      forall snames, at, src, dist, i, k | 0 <= src < |db| && OwnTexts(db, snames, at)
                                           && DistancesFrom(db, src, dist) && IsPick(db, snames, dist, i, k)
        ensures NearestTo(db, at, src, k)
      {
        PickIsNearest(db, snames, at, src, dist, i, k);
      }
    } else {
      var i, j :| 0 <= i < |db| && 0 <= j < |db| && db[i].sender <= db[j].sender && i != j;
      WrongWhenPrefix(db, i, j);
    }
  }

  /** For instance 10.0.0.1 and 10.0.0.10: a request from the former is sent to the server at the latter, although
      there is one at the former itself. */
  lemma PrefixMisleads()
    ensures var db := [Lsa("10.0.0.1", 0, ["10.0.0.10"]), Lsa("10.0.0.10", 0, ["10.0.0.1"])];
      var snames := ["10.0.0.10\n", "10.0.0.1\n"];
      OwnTexts(db, snames, [1, 0]) && Answers(db, snames, 0) && !NearestTo(db, [1, 0], 0, 0)
  {
    var db := [Lsa("10.0.0.1", 0, ["10.0.0.10"]), Lsa("10.0.0.10", 0, ["10.0.0.1"])];
    WrongWhenPrefix(db, 0, 1);
    assert db[1].sender + "\n" == "10.0.0.10\n" && db[0].sender + "\n" == "10.0.0.1\n";
  }

  /** Only a node itself is at distance 0. */
  lemma ZeroCost(db: seq<Lsa>, c: int, i: int, d: int)
    requires 0 <= c < |db| && 0 <= i < |db| && LightestCost(DbMatrix(db), c, i, d)
    ensures 0 <= d && (d == 0 <==> c == i)
  {
    var g := DbMatrix(db);
    if c == i {
      assert Route(g, c, i, [c]) && Cost(g, [c]) == 0;
    } else if d == 0 {
      var p :| Route(g, c, i, p) && Cost(g, p) == 0;
      CostNonNegative(g, c, p[|p| - 2], p[..|p| - 1]);
    }
  }

  lemma {:induction false} DistancesExist(db: seq<Lsa>, src: int, n: nat) returns (dist: seq<int>)
    requires DistinctSenders(db) && 0 <= src < |db| && n <= |db|
    ensures |dist| == n && forall v | 0 <= v < n :: LightestCost(DbMatrix(db), src, v, dist[v])
  {
    hide *;
    if n == 0 {
      dist := [];
    } else {
      var init := DistancesExist(db, src, n - 1);
      var d := HopDistanceExists(Adverts(db), db[src].sender, db[n - 1].sender);
      MatrixDistanceIsHops(db, src, n - 1, d);
      dist := init + [d];
    }
  }

  /** For which client the answer is right. The README promises the nearest server to the client; with the
      source fixed at node 0, that holds for every list of servers that sit at nodes exactly when the client is
      node 0. */
  lemma AnswerRightExactlyForNodeZero(db: seq<Lsa>, c: int)
    requires DistinctSenders(db) && OneLine(db) && PrefixFree(db) && 0 <= c < |db|
    ensures (forall snames, at, k | OwnTexts(db, snames, at) && Answers(db, snames, k) :: NearestTo(db, at, c, k))
            <==> c == 0
  {
    if c == 0 {
      forall snames, at, k | OwnTexts(db, snames, at) && Answers(db, snames, k)
        ensures NearestTo(db, at, 0, k)
      {
        var dist, i :| DistancesFrom(db, 0, dist) && IsPick(db, snames, dist, i, k);
        PickIsNearest(db, snames, at, 0, dist, i, k);
      }
    } else {
      WrongForOthers(db, c);
    }
  }

  /** A server at node 0 is preferred to one at the client itself. */
  lemma WrongForOthers(db: seq<Lsa>, c: int)
    requires DistinctSenders(db) && 0 < c < |db|
    ensures var snames := [db[0].sender + "\n", db[c].sender + "\n"];
      OwnTexts(db, snames, [0, c]) && Answers(db, snames, 0) && !NearestTo(db, [0, c], c, 0)
  {
    hide IsPick, NearestTo, DistancesFrom, SitsAt;
    var snames := [db[0].sender + "\n", db[c].sender + "\n"];
    AddressOfLine(db[0].sender);
    AddressOfLine(db[c].sender);
    var dist := OwnDistances(db, 0);
    var fromClient := OwnDistances(db, c);
    FirstIsPick(db, snames, dist, 0);
    OtherIsFarther(db, [0, c], c, fromClient);
  }
}
