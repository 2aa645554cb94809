/** From the link file to the chosen server: what survives the printing, the losses, the parsing,
    the missing announcement of the sink and the cut-off at 9. */
module EndToEnd {
  import opened Text
  import opened Walks
  import opened Topology
  import opened Generator
  import opened Database
  import opened ShortestPaths
  import opened Selection
  import opened Servers
  import Bfs
  import GraphList

  /** Node names are words: no white space and no comma. */
  ghost predicate NamesPrintable(links: Links) {
    forall a | a in links :: IsWord(a, WHITESPACE + {','})
  }

  /** What `read_links` guarantees, plus printable names and a sink that occurs in the file. */
  ghost predicate GoodTopology(links: Links, sink: Name) {
    && Closed(links) && Symmetric(links) && (forall a | a in links :: links[a] != [])
    && NamesPrintable(links) && sink in links
  }

  /** The database that `graph_init` builds from the generator's output. */
  ghost function DatabaseOf(links: Links, sink: Name, rounds: nat, heard: (nat, nat) -> bool): seq<Lsa>
    requires Closed(links) && sink in links
  {
    Load([], Fields(AllText(links, sink, rounds, heard), WHITESPACE))
  }

  /** Node `v` is heard in round `round`. */
  ghost predicate HeardAt(links: Links, sink: Name, heard: (nat, nat) -> bool, v: Name, round: nat)
    requires Closed(links) && sink in links
  {
    HeardIn(Bfs.RoundOrder(links, sink), heard, v, round)
  }

  /** Entry `e` is what its sender said the last time it was heard. */
  ghost predicate LastWord(links: Links, sink: Name, rounds: nat, heard: (nat, nat) -> bool, e: Lsa)
    requires Closed(links) && sink in links
  {
    && e.sender in links && e.neighbors == links[e.sender]
    && 0 <= e.seqnum < rounds && HeardAt(links, sink, heard, e.sender, e.seqnum)
    && forall r | e.seqnum < r < rounds :: !HeardAt(links, sink, heard, e.sender, r)
  }

  // ----- losses

  lemma AllPrintable(links: Links, sink: Name, rounds: nat, heard: (nat, nat) -> bool)
    requires GoodTopology(links, sink)
    ensures var order := Bfs.RoundOrder(links, sink);
      && (forall v | v in order :: v in links)
      && forall l | l in AllLsas(links, order, rounds, heard) :: Printable(l)
  {
    var order := Bfs.RoundOrder(links, sink);
    Bfs.RoundCoversReachable(links, sink);
    AllLsasContents(links, order, rounds, heard);
    forall l | l in AllLsas(links, order, rounds, heard)
      ensures Printable(l)
    {
      WordsAvoidSpace(l.sender);
    }
  }

  /** Everything that is printed and not lost. */
  ghost function Survivors(links: Links, sink: Name, rounds: nat, heard: (nat, nat) -> bool): seq<Lsa>
    requires Closed(links) && sink in links
  {
    Bfs.RoundCoversReachable(links, sink);
    AllLsas(links, Bfs.RoundOrder(links, sink), rounds, heard)
  }

  lemma DatabaseIsNewest(links: Links, sink: Name, rounds: nat, heard: (nat, nat) -> bool)
    requires GoodTopology(links, sink)
    ensures PerSenderOrdered(Survivors(links, sink, rounds, heard))
    ensures IsNewest(Survivors(links, sink, rounds, heard), DatabaseOf(links, sink, rounds, heard))
  {
    hide IsNewest, Load, AllLsas, Fields;
    AllPrintable(links, sink, rounds, heard);
    AllLsasSorted(links, Bfs.RoundOrder(links, sink), rounds, heard);
    LoadIsNewestWins(Survivors(links, sink, rounds, heard));
  }

  lemma NewestSenders(lsas: seq<Lsa>, db: seq<Lsa>)
    requires IsNewest(lsas, db)
    ensures DistinctSenders(db)
    ensures forall v :: HasSender(db, v) <==> HasSender(lsas, v)
  {
  }

  lemma EntryIsNewest(lsas: seq<Lsa>, db: seq<Lsa>, e: Lsa)
    requires PerSenderOrdered(lsas) && IsNewest(lsas, db) && e in db
    ensures e in lsas && forall l | l in lsas && l.sender == e.sender :: l.seqnum <= e.seqnum
  {
    LastOfLargest(lsas, e.sender);
  }

  lemma NewestIsLastWord(links: Links, sink: Name, rounds: nat, heard: (nat, nat) -> bool, e: Lsa)
    requires GoodTopology(links, sink)
    requires var lsas := Survivors(links, sink, rounds, heard);
      e in lsas && forall l | l in lsas && l.sender == e.sender :: l.seqnum <= e.seqnum
    ensures LastWord(links, sink, rounds, heard, e)
  {
    hide AllLsas, HeardIn;
    var order := Bfs.RoundOrder(links, sink);
    Bfs.RoundCoversReachable(links, sink);
    AllLsasContents(links, order, rounds, heard);
    forall r: nat | r < rounds && HeardAt(links, sink, heard, e.sender, r)
      ensures r <= e.seqnum
    {
      assert Announced(links, order, heard, Lsa(e.sender, r, links[e.sender]));
      assert Lsa(e.sender, r, links[e.sender]) in Survivors(links, sink, rounds, heard);
    }
  }

  /** For any topology, any number of rounds and any losses, the database has exactly one entry per node heard
      at least once, with that node's exact neighbour list and the last round in which it was heard. */
  lemma LossIndependentDatabase(links: Links, sink: Name, rounds: nat, heard: (nat, nat) -> bool)
    requires GoodTopology(links, sink)
    ensures var db := DatabaseOf(links, sink, rounds, heard);
      && DistinctSenders(db)
      && (forall v :: HasSender(db, v) <==> exists r: nat :: r < rounds && HeardAt(links, sink, heard, v, r))
      && forall e | e in db :: LastWord(links, sink, rounds, heard, e)
  {
    hide IsNewest, DatabaseOf, Survivors, PerSenderOrdered, HasSender, DistinctSenders, LastWord, HeardAt;
    var lsas, db := Survivors(links, sink, rounds, heard), DatabaseOf(links, sink, rounds, heard);
    DatabaseIsNewest(links, sink, rounds, heard);
    NewestSenders(lsas, db);
    forall v
      ensures HasSender(db, v) <==> exists r: nat :: r < rounds && HeardAt(links, sink, heard, v, r)
    {
      SenderHeard(links, sink, rounds, heard, v);
    }
    forall e | e in db
      ensures LastWord(links, sink, rounds, heard, e)
    {
      EntryIsNewest(lsas, db, e);
      NewestIsLastWord(links, sink, rounds, heard, e);
    }
  }

  lemma SenderHeard(links: Links, sink: Name, rounds: nat, heard: (nat, nat) -> bool, v: Name)
    requires GoodTopology(links, sink)
    ensures HasSender(Survivors(links, sink, rounds, heard), v)
            <==> exists r: nat :: r < rounds && HeardAt(links, sink, heard, v, r)
  {
    hide AllLsas;
    var order, lsas := Bfs.RoundOrder(links, sink), Survivors(links, sink, rounds, heard);
    Bfs.RoundCoversReachable(links, sink);
    AllLsasContents(links, order, rounds, heard);
    if HasSender(lsas, v) {
      var l :| l in lsas && l.sender == v;
      assert Announced(links, order, heard, l) && HeardAt(links, sink, heard, v, l.seqnum);
    }
    if r: nat :| r < rounds && HeardAt(links, sink, heard, v, r) {
      var k: nat :| k < |order| && order[k] == v && heard(r, k);
      assert order[k] in order;
      var l := Lsa(v, r, links[v]);
      assert Announced(links, order, heard, l) && l in lsas;
    }
  }

  // ----- what is advertised under losses

  /** The nodes of which at least one announcement survives. */
  ghost function HeardNodes(links: Links, sink: Name, rounds: nat, heard: (nat, nat) -> bool): set<Name>
    requires Closed(links) && sink in links
  {
    set v | v in links && exists r: nat :: r < rounds && HeardAt(links, sink, heard, v, r)
  }

  /** The part of the topology that the nodes in `known` announce. */
  function Restricted(links: Links, known: set<Name>): Links {
    map v | v in links && v in known :: links[v]
  }

  lemma SendersAreHeard(links: Links, sink: Name, rounds: nat, heard: (nat, nat) -> bool)
    requires GoodTopology(links, sink)
    ensures Senders(DatabaseOf(links, sink, rounds, heard)) == HeardNodes(links, sink, rounds, heard)
  {
    hide DatabaseOf, HeardAt;
    var db := DatabaseOf(links, sink, rounds, heard);
    LossIndependentDatabase(links, sink, rounds, heard);
    forall v
      ensures v in Senders(db) <==> HasSender(db, v)
    {
      SendersHave(db, v);
    }
    forall v | HasSender(db, v)
      ensures v in links
    {
      var e :| e in db && e.sender == v;
      assert LastWord(links, sink, rounds, heard, e);
    }
  }

  lemma SendersHave(db: seq<Lsa>, v: Name)
    ensures v in Senders(db) <==> HasSender(db, v)
  {
    if HasSender(db, v) {
      var e :| e in db && e.sender == v;
      var i :| 0 <= i < |db| && db[i] == e;
      assert db[i].sender in Senders(db);
    }
  }

  /** For every loss pattern the database advertises the topology restricted to the nodes heard. */
  lemma AdvertsAreRestriction(links: Links, sink: Name, rounds: nat, heard: (nat, nat) -> bool)
    requires GoodTopology(links, sink)
    ensures var db, known := DatabaseOf(links, sink, rounds, heard), HeardNodes(links, sink, rounds, heard);
      DistinctSenders(db) && Senders(db) == known && Adverts(db) == Restricted(links, known)
  {
    hide DatabaseOf, HeardAt;
    var db, known := DatabaseOf(links, sink, rounds, heard), HeardNodes(links, sink, rounds, heard);
    LossIndependentDatabase(links, sink, rounds, heard);
    SendersAreHeard(links, sink, rounds, heard);
    forall v | v in known
      ensures Adverts(db)[v] == links[v]
    {
      var i :| 0 <= i < |db| && db[i].sender == v;
      assert LastWord(links, sink, rounds, heard, db[i]);
    }
  }

  /** For every loss pattern the distances that the name server computes are the hop distances, cut off at 9, in the
      topology restricted to the nodes heard. */
  lemma DistancesUnderLoss(links: Links, sink: Name, rounds: nat, heard: (nat, nat) -> bool, i: int, j: int, d: int)
    requires GoodTopology(links, sink)
    requires var db := DatabaseOf(links, sink, rounds, heard); 0 <= i < |db| && 0 <= j < |db|
    ensures var db, known := DatabaseOf(links, sink, rounds, heard), HeardNodes(links, sink, rounds, heard);
      LightestCost(DbMatrix(db), i, j, d) <==> HopDistance(Restricted(links, known), db[i].sender, db[j].sender, d)
  {
    hide DatabaseOf, HeardNodes, LightestCost, HopDistance, Restricted;
    AdvertsAreRestriction(links, sink, rounds, heard);
    MatrixDistanceIsHops(DatabaseOf(links, sink, rounds, heard), i, j, d);
  }

  // ----- everyone but perhaps the sink is heard

  /** The topology without the sink's own entry. */
  function Without(links: Links, sink: Name): Links {
    links - {sink}
  }

  /** Every node that the sink can reach, other than itself, is heard at least once. */
  ghost predicate EveryoneHeard(links: Links, sink: Name, rounds: nat, heard: (nat, nat) -> bool)
    requires Closed(links) && sink in links
  {
    forall v | v != sink && Reachable(links, sink, v) :: exists r: nat :: r < rounds && HeardAt(links, sink, heard, v, r)
  }

  ghost predicate Others(links: Links, sink: Name, v: Name) {
    v != sink && Reachable(links, sink, v)
  }

  /** Nothing is missing from `known` but, perhaps, the sink. */
  ghost predicate Complete(links: Links, sink: Name, known: set<Name>) {
    forall v | v != sink :: v in known <==> Reachable(links, sink, v)
  }

  /** The topology that a complete set of nodes announces. */
  function Seen(links: Links, sink: Name, known: set<Name>): Links {
    if sink in known then links else Without(links, sink)
  }

  /** The nodes heard are exactly the nodes that the sink can reach; the sink itself is only heard, and so
      only known, if it is linked to itself. */
  lemma HeardIsComplete(links: Links, sink: Name, rounds: nat, heard: (nat, nat) -> bool)
    requires GoodTopology(links, sink) && EveryoneHeard(links, sink, rounds, heard)
    ensures Complete(links, sink, HeardNodes(links, sink, rounds, heard))
    ensures sink in HeardNodes(links, sink, rounds, heard) ==> sink in links[sink]
  {
    Bfs.RoundCoversReachable(links, sink);
  }

  /** The part of the topology that a complete set announces has the walks that avoid the sink, if it is missing. */
  lemma AdvertsAvoidSink(links: Links, sink: Name, known: set<Name>, a: Name, b: Name, n: int)
    requires Closed(links) && sink in links && Complete(links, sink, known) && a in known
    ensures Within(Restricted(links, known), a, b, n) <==> Within(Seen(links, sink, known), a, b, n)
  {
    hide Complete, Seen;
    var g, h, inside := Restricted(links, known), Seen(links, sink, known), known + {sink};
    forall x, y
      ensures Edge(g, x, y) ==> Edge(h, x, y)
      ensures x in inside && Edge(h, x, y) ==> Edge(g, x, y) && y in inside
    {
      EdgesAvoidSink(links, sink, known, x, y);
    }
    if Within(g, a, b, n) {
      var p :| Walk(g, a, b, p) && |p| - 1 <= n;
      assert Walk(h, a, b, p);
    }
    if Within(h, a, b, n) {
      var p :| Walk(h, a, b, p) && |p| - 1 <= n;
      WalkStaysInside(h, inside, a, b, p);
      assert Walk(g, a, b, p);
    }
  }

  lemma EdgesAvoidSink(links: Links, sink: Name, known: set<Name>, x: Name, y: Name)
    requires Closed(links) && sink in links && Complete(links, sink, known)
    ensures Edge(Restricted(links, known), x, y) ==> Edge(Seen(links, sink, known), x, y)
    ensures x in known + {sink} && Edge(Seen(links, sink, known), x, y) ==>
              Edge(Restricted(links, known), x, y) && y in known + {sink}
  {
    if x in known + {sink} && Edge(Seen(links, sink, known), x, y) {
      assert Walk(links, sink, sink, [sink]);
      ReachableExtend(links, sink, x, y);
    }
  }

  lemma ReachableExtend(links: Links, s: Name, x: Name, y: Name)
    requires Reachable(links, s, x) && Edge(links, x, y)
    ensures Reachable(links, s, y)
  {
    var p :| Walk(links, s, x, p);
    WalkExtend(links, s, x, y, p);
  }

  lemma RestrictionDistance(links: Links, sink: Name, known: set<Name>, a: Name, b: Name, d: int)
    requires Closed(links) && sink in links && Complete(links, sink, known) && a in known
    ensures HopDistance(Restricted(links, known), a, b, d) <==> HopDistance(Seen(links, sink, known), a, b, d)
  {
    hide Restricted, Seen, Complete, Within;
    AdvertsAvoidSink(links, sink, known, a, b, d);
    AdvertsAvoidSink(links, sink, known, a, b, d - 1);
  }

  /** When everyone else is heard, the distances that the name server computes are the cut-off distances in the
      topology, without the sink unless it is heard. */
  lemma ComputedDistance(links: Links, sink: Name, rounds: nat, heard: (nat, nat) -> bool, i: int, j: int, d: int)
    requires GoodTopology(links, sink) && EveryoneHeard(links, sink, rounds, heard)
    requires var db := DatabaseOf(links, sink, rounds, heard); 0 <= i < |db| && 0 <= j < |db|
    ensures var db, known := DatabaseOf(links, sink, rounds, heard), HeardNodes(links, sink, rounds, heard);
      LightestCost(DbMatrix(db), i, j, d) <==> HopDistance(Seen(links, sink, known), db[i].sender, db[j].sender, d)
  {
    hide DatabaseOf, HeardNodes, LightestCost, HopDistance, Restricted, Seen, Complete, EveryoneHeard;
    var db, known := DatabaseOf(links, sink, rounds, heard), HeardNodes(links, sink, rounds, heard);
    DistancesUnderLoss(links, sink, rounds, heard, i, j, d);
    SendersAreHeard(links, sink, rounds, heard);
    HeardIsComplete(links, sink, rounds, heard);
    assert db[i].sender in Senders(db);
    RestrictionDistance(links, sink, known, db[i].sender, db[j].sender, d);
  }

  /** Any two neighbours of the sink reach each other in two hops without it; trivially so for a leaf. */
  ghost predicate Bypassed(links: Links, sink: Name)
    requires sink in links
  {
    forall x, y | x in links[sink] && y in links[sink] && x != sink && y != sink :: Within(Without(links, sink), x, y, 2)
  }

  /** A walk through the sink can be rerouted around it without becoming longer. */
  lemma {:induction false} Reroute(links: Links, sink: Name, a: Name, b: Name, p: seq<Name>) returns (q: seq<Name>)
    requires Symmetric(links) && sink in links && Bypassed(links, sink)
    requires a != sink && b != sink && Walk(links, a, b, p)
    ensures Walk(Without(links, sink), a, b, q) && 0 < |q| <= |p|
    decreases |p|
  {
    hide Walk, Bypassed, Without;
    var h := Without(links, sink);
    WalkEnds(links, h, a, b, p);
    if |p| == 1 {
      return p;
    }
    WalkTail(links, a, b, p);
    if p[1] != sink {
      q := Reroute(links, sink, p[1], b, p[1..]);
      EdgeWithout(links, sink, a, p[1]);
      WalkPrepend(h, a, p[1], b, q);
      return [a] + q;
    }
    WalkEnds(links, h, sink, b, p[1..]);
    WalkTail(links, sink, b, p[1..]);
    var rest := p[1..][1..];
    if p[2] == sink {
      WalkPrepend(links, a, sink, b, rest);
      q := Reroute(links, sink, a, b, [a] + rest);
    } else {
      var detour := Detour(links, sink, a, p[2]);
      var onwards := Reroute(links, sink, p[2], b, rest);
      WalkConcat(h, a, p[2], b, detour, onwards);
      q := detour + onwards[1..];
    }
  }

  lemma EdgeWithout(links: Links, sink: Name, a: Name, b: Name)
    requires a != sink && Edge(links, a, b)
    ensures Edge(Without(links, sink), a, b)
  {
  }

  /** From a neighbour of the sink to another. */
  lemma Detour(links: Links, sink: Name, a: Name, c: Name) returns (detour: seq<Name>)
    requires Symmetric(links) && sink in links && Bypassed(links, sink)
    requires a != sink && c != sink && Edge(links, a, sink) && Edge(links, sink, c)
    ensures Walk(Without(links, sink), a, c, detour) && 0 < |detour| <= 3
  {
    assert Edge(links, sink, a);
    detour :| Walk(Without(links, sink), a, c, detour) && |detour| - 1 <= 2;
  }

  lemma WithinWithout(links: Links, sink: Name, a: Name, b: Name, n: int)
    requires Within(Without(links, sink), a, b, n)
    ensures Within(links, a, b, n)
  {
    var p :| Walk(Without(links, sink), a, b, p) && |p| - 1 <= n;
    assert forall x, y | Edge(Without(links, sink), x, y) :: Edge(links, x, y);
    assert Walk(links, a, b, p);
  }

  /** Losing the sink's own announcement changes no distance exactly when every two neighbours of the sink
      are within two hops of each other without it. */
  lemma SinkIsDispensable(links: Links, sink: Name)
    requires GoodTopology(links, sink)
    ensures (forall a, b, d | Others(links, sink, a) && Others(links, sink, b) ::
               HopDistance(Without(links, sink), a, b, d) <==> HopDistance(links, a, b, d))
            <==> Bypassed(links, sink)
  {
    if Bypassed(links, sink) {
      forall a, b, d | Others(links, sink, a) && Others(links, sink, b)
        ensures HopDistance(Without(links, sink), a, b, d) <==> HopDistance(links, a, b, d)
      {
        BypassKeepsDistance(links, sink, a, b, d);
      }
    }
    if forall a, b, d | Others(links, sink, a) && Others(links, sink, b) ::
        HopDistance(Without(links, sink), a, b, d) <==> HopDistance(links, a, b, d) {
      forall x, y | x in links[sink] && y in links[sink] && x != sink && y != sink
        ensures Within(Without(links, sink), x, y, 2)
      {
        assert Walk(links, sink, x, [sink, x]) && Walk(links, sink, y, [sink, y]);
        assert Edge(links, sink, x) && Edge(links, sink, y);
        assert Walk(links, x, y, [x, sink, y]);
        assert Within(links, x, y, 2);
        var d := HopDistanceExists(links, x, y);
        assert d <= 2;
        assert HopDistance(Without(links, sink), x, y, d);
      }
    }
  }

  lemma BypassKeepsDistance(links: Links, sink: Name, a: Name, b: Name, d: int)
    requires GoodTopology(links, sink) && Bypassed(links, sink) && a != sink && b != sink
    ensures HopDistance(Without(links, sink), a, b, d) <==> HopDistance(links, a, b, d)
  {
    forall n: nat
      ensures Within(links, a, b, n) <==> Within(Without(links, sink), a, b, n)
    {
      if Within(links, a, b, n) {
        var p :| Walk(links, a, b, p) && |p| - 1 <= n;
        var q := Reroute(links, sink, a, b, p);
      }
      if Within(Without(links, sink), a, b, n) {
        WithinWithout(links, sink, a, b, n);
      }
    }
    if HopDistance(links, a, b, d) {
      HopDistanceTransfer(links, Without(links, sink), a, b, d);
    }
    if HopDistance(Without(links, sink), a, b, d) {
      HopDistanceTransfer(Without(links, sink), links, a, b, d);
    }
  }

  /** A sink with a single neighbour is dispensable. */
  lemma LeafIsBypassed(links: Links, sink: Name, x: Name)
    requires sink in links && Elems(links[sink]) == {x}
    ensures Bypassed(links, sink)
  {
    forall y, z | y in links[sink] && z in links[sink]
      ensures Within(Without(links, sink), y, z, 2)
    {
      assert y in Elems(links[sink]) && z in Elems(links[sink]);
      WithinSelf(Without(links, sink), x, 2);
    }
  }

  // ----- the main result

  /** Every distance over the matrix is the hop distance over the links, cut off at 9. */
  ghost predicate ExactDistances(links: Links, db: seq<Lsa>) {
    forall i, j, d | 0 <= i < |db| && 0 <= j < |db| ::
      LightestCost(DbMatrix(db), i, j, d) <==> HopDistance(links, db[i].sender, db[j].sender, d)
  }

  /** Exact distances in numbers: up to eight hops they are the hops of a shortest walk, and 9 stands for any more and for
      no walk at all. */
  lemma EightHopsToldApart(links: Links, db: seq<Lsa>, i: nat, j: nat, d: int)
    requires ExactDistances(links, db) && i < |db| && j < |db|
    ensures var a, b := db[i].sender, db[j].sender;
      && (0 <= d <= 8 ==> (LightestCost(DbMatrix(db), i, j, d) <==> Within(links, a, b, d) && !Within(links, a, b, d - 1)))
      && (LightestCost(DbMatrix(db), i, j, 9) <==> !Within(links, a, b, 8))
  {
    hide LightestCost, HopDistance;
    CutAtNine(links, db[i].sender, db[j].sender, d);
    CutAtNine(links, db[i].sender, db[j].sender, 9);
  }

  /** The distances that the restriction to a complete set preserves. */
  lemma SeenDistance(links: Links, sink: Name, known: set<Name>, a: Name, b: Name, d: int)
    requires GoodTopology(links, sink) && (sink in known || Bypassed(links, sink)) && a in known && b in known
    ensures HopDistance(Seen(links, sink, known), a, b, d) <==> HopDistance(links, a, b, d)
  {
    hide HopDistance, Bypassed;
    if sink !in known {
      BypassKeepsDistance(links, sink, a, b, d);
    }
  }

  lemma ExactWhenBypassed(links: Links, sink: Name, rounds: nat, heard: (nat, nat) -> bool)
    requires GoodTopology(links, sink) && EveryoneHeard(links, sink, rounds, heard)
    requires sink in HeardNodes(links, sink, rounds, heard) || Bypassed(links, sink)
    ensures ExactDistances(links, DatabaseOf(links, sink, rounds, heard))
  {
    hide DatabaseOf, HeardNodes, LightestCost, HopDistance, Seen, Bypassed, EveryoneHeard;
    var db, known := DatabaseOf(links, sink, rounds, heard), HeardNodes(links, sink, rounds, heard);
    SendersAreHeard(links, sink, rounds, heard);
    forall i, j, d | 0 <= i < |db| && 0 <= j < |db|
      ensures LightestCost(DbMatrix(db), i, j, d) <==> HopDistance(links, db[i].sender, db[j].sender, d)
    {
      assert db[i].sender in Senders(db) && db[j].sender in Senders(db);
      ComputedDistance(links, sink, rounds, heard, i, j, d);
      SeenDistance(links, sink, known, db[i].sender, db[j].sender, d);
    }
  }

  lemma BypassedWhenExact(links: Links, sink: Name, rounds: nat, heard: (nat, nat) -> bool)
    requires GoodTopology(links, sink) && EveryoneHeard(links, sink, rounds, heard)
    requires sink !in HeardNodes(links, sink, rounds, heard)
    requires ExactDistances(links, DatabaseOf(links, sink, rounds, heard))
    ensures Bypassed(links, sink)
  {
    hide DatabaseOf, HeardNodes, LightestCost, HopDistance, Bypassed, EveryoneHeard;
    var db := DatabaseOf(links, sink, rounds, heard);
    SendersAreHeard(links, sink, rounds, heard);
    HeardIsComplete(links, sink, rounds, heard);
    forall a, b, d | Others(links, sink, a) && Others(links, sink, b)
      ensures HopDistance(Without(links, sink), a, b, d) <==> HopDistance(links, a, b, d)
    {
      var i :| 0 <= i < |db| && db[i].sender == a;
      var j :| 0 <= j < |db| && db[j].sender == b;
      ComputedDistance(links, sink, rounds, heard, i, j, d);
      assert LightestCost(DbMatrix(db), i, j, d) <==> HopDistance(links, a, b, d);
    }
    SinkIsDispensable(links, sink);
  }

  /** End to end. For every link file, number of rounds and loss pattern in which every reachable node but perhaps the
      sink is heard at least once: nothing else is missing, and the name server's distances are the hop distances of
      the links, cut off at 9, for all pairs of nodes exactly when the sink is heard as well (which takes a link to
      itself) or every two neighbours of the sink are within two hops of each other without it. */
  lemma DistancesAreHops(lines: seq<seq<string>>, sink: Name, rounds: nat, heard: (nat, nat) -> bool)
    requires LinesComplete(lines) && sink in Named(lines)
    requires var links := LinksOf(lines); NamesPrintable(links) && EveryoneHeard(links, sink, rounds, heard)
    ensures var links := LinksOf(lines);
      var known, db := HeardNodes(links, sink, rounds, heard), DatabaseOf(links, sink, rounds, heard);
      && Complete(links, sink, known)
      && (ExactDistances(links, db) <==> sink in known || Bypassed(links, sink))
  {
    hide DatabaseOf, HeardNodes, ExactDistances, Bypassed, EveryoneHeard, Complete;
    var links := LinksOf(lines);
    TopologyWellFormed(lines, links);
    HeardIsComplete(links, sink, rounds, heard);
    if sink in HeardNodes(links, sink, rounds, heard) || Bypassed(links, sink) {
      ExactWhenBypassed(links, sink, rounds, heard);
    } else if ExactDistances(links, DatabaseOf(links, sink, rounds, heard)) {
      BypassedWhenExact(links, sink, rounds, heard);
    }
  }

  // ----- without losses

  const ALL_HEARD: (nat, nat) -> bool := (round, position) => true

  lemma NoLossHearsAll(links: Links, sink: Name, rounds: nat)
    requires Closed(links) && sink in links && rounds > 0
    ensures forall v | v in Bfs.RoundOrder(links, sink) :: HeardAt(links, sink, ALL_HEARD, v, 0)
    ensures EveryoneHeard(links, sink, rounds, ALL_HEARD)
  {
    Bfs.RoundCoversReachable(links, sink);
    forall v | v in Bfs.RoundOrder(links, sink)
      ensures HeardAt(links, sink, ALL_HEARD, v, 0)
    {
      var k :| 0 <= k < |Bfs.RoundOrder(links, sink)| && Bfs.RoundOrder(links, sink)[k] == v;
      assert ALL_HEARD(0, k);
    }
  }

  const PATH: Links := map["a" := ["s"], "s" := ["a", "b"], "b" := ["s"]]

  lemma MentionsOfTwo(first: seq<string>, second: seq<string>, a: Name)
    requires |first| == |second| == 2
    ensures Mentions([first, second], a) == LineNeighbors(first, a) + LineNeighbors(second, a)
  {
    hide LineNeighbors;
    var none: seq<seq<string>> := [];
    assert [first, second][..1] == [first] && [first][..0] == none;
    assert Mentions(none, a) == [];
    assert Mentions([first], a) == [] + LineNeighbors(first, a);
  }

  lemma NamedByTwo(first: seq<string>, second: seq<string>)
    requires |first| == |second| == 2
    ensures Named([first, second]) == {first[0], first[1], second[0], second[1]}
  {
    hide Named;
    var none: seq<seq<string>> := [];
    assert none + [first] + [second] == [first, second];
    NobodyNamed();
    NamedSnoc(none, first);
    NamedSnoc(none + [first], second);
  }

  lemma NobodyNamed()
    ensures Named([]) == {}
  {
  }

  lemma TwoLinks(first: seq<string>, second: seq<string>, links: Links)
    requires |first| == |second| == 2 && links.Keys == {first[0], first[1], second[0], second[1]}
    requires forall a | a in links :: links[a] == LineNeighbors(first, a) + LineNeighbors(second, a)
    ensures LinksOf([first, second]) == links
  {
    hide LineNeighbors, Mentions, Named, LinksOf;
    NamedByTwo(first, second);
    forall a | a in links
      ensures Mentions([first, second], a) == links[a]
    {
      MentionsOfTwo(first, second, a);
    }
    assert Describes([first, second], links);
  }

  /** The topologies of the examples are those of link files. */
  lemma ExampleFiles()
    ensures LinksOf([["a", "s"], ["s", "b"]]) == PATH
    ensures LinksOf([["s", "a"], ["s", "a"]]) == Bfs.DOUBLE
    ensures LinksOf([["s", "a"], ["s", "s"]]) == Bfs.SELF
  {
    hide *;
    PathFile();
    DoubleFile();
    SelfFile();
  }

  lemma PathFile()
    ensures LinksOf([["a", "s"], ["s", "b"]]) == PATH
  {
    hide LinksOf;
    TwoLinks(["a", "s"], ["s", "b"], PATH);
  }

  lemma DoubleFile()
    ensures LinksOf([["s", "a"], ["s", "a"]]) == Bfs.DOUBLE
  {
    hide LinksOf;
    TwoLinks(["s", "a"], ["s", "a"], Bfs.DOUBLE);
  }

  lemma SelfFile()
    ensures LinksOf([["s", "a"], ["s", "s"]]) == Bfs.SELF
  {
    hide LinksOf;
    TwoLinks(["s", "a"], ["s", "s"], Bfs.SELF);
  }

  lemma PathIsGood()
    ensures GoodTopology(PATH, "s")
  {
    forall a, b | Edge(PATH, a, b)
      ensures Edge(PATH, b, a)
    {
      assert (a == "s" && (b == "a" || b == "b")) || (b == "s" && (a == "a" || a == "b"));
    }
  }

  /** On the path a - s - b the ends are two hops apart. Without s they are not connected. */
  lemma PathDistances()
    ensures HopDistance(PATH, "a", "b", 2) && HopDistance(Without(PATH, "s"), "a", "b", INFINITY)
  {
    var h := Without(PATH, "s");
    assert Edge(PATH, "a", "s") && Edge(PATH, "s", "b") && !Edge(PATH, "a", "b");
    assert Walk(PATH, "a", "b", ["a", "s", "b"]);
    forall p | Walk(PATH, "a", "b", p)
      ensures |p| - 1 >= 2
    {
      if |p| <= 2 {
        assert false;
      }
    }
    assert forall x, y | x in {"a", "s"} && Edge(h, x, y) :: y in {"a", "s"};
    if p :| Walk(h, "a", "b", p) {
      assert p[|p| - 1] in p;
      WalkStaysInside(h, {"a", "s"}, "a", "b", p);
      assert false;
    }
  }

  lemma PathReaches()
    ensures Reachable(PATH, "s", "a") && Reachable(PATH, "s", "b")
  {
    assert Edge(PATH, "s", "a") && Edge(PATH, "s", "b");
    assert Walk(PATH, "s", "a", ["s", "a"]) && Walk(PATH, "s", "b", ["s", "b"]);
  }

  /** So for the sink s the name server takes them to be out of reach of each other, even when nothing is lost. */
  lemma SinkOnTheWay()
    ensures GoodTopology(PATH, "s")
    ensures var db := DatabaseOf(PATH, "s", 1, ALL_HEARD);
      && !ExactDistances(PATH, db)
      && exists i, j :: 0 <= i < |db| && 0 <= j < |db| && db[i].sender == "a" && db[j].sender == "b"
                        && LightestCost(DbMatrix(db), i, j, INFINITY) && HopDistance(PATH, "a", "b", 2)
  {
    hide DatabaseOf, HeardNodes, LightestCost, HopDistance, Walk;
    PathIsGood();
    PathDistances();
    NoLossHearsAll(PATH, "s", 1);
    var db := DatabaseOf(PATH, "s", 1, ALL_HEARD);
    SendersAreHeard(PATH, "s", 1, ALL_HEARD);
    HeardIsComplete(PATH, "s", 1, ALL_HEARD);
    PathReaches();
    assert "a" in Senders(db) && "b" in Senders(db);
    var i :| 0 <= i < |db| && db[i].sender == "a";
    var j :| 0 <= j < |db| && db[j].sender == "b";
    ComputedDistance(PATH, "s", 1, ALL_HEARD, i, j, INFINITY);
    if ExactDistances(PATH, db) {
      HopDistanceUnique(PATH, "a", "b", 2, INFINITY);
    }
  }

  // ----- the source of the shortest paths

  /** Announcements of nodes already seen add no newcomer. */
  lemma {:induction false} FirstSeenIgnores(a: seq<Lsa>, b: seq<Lsa>)
    requires forall l | l in b :: HasSender(a, l.sender)
    ensures FirstSeen(a + b) == FirstSeen(a)
    decreases |b|
  {
    hide HasSender;
    if b == [] {
      assert a + b == a;
    } else {
      var init, last := b[..|b| - 1], b[|b| - 1];
      assert forall l | l in init :: l in b;
      FirstSeenIgnores(a, init);
      assert (a + b)[..|a + b| - 1] == a + init && (a + b)[|a + b| - 1] == last && last in b;
      FirstSeenHas(a, last.sender);
    }
  }

  /** Every sender of `lsas` occurs at or before position `p`. */
  ghost predicate SeenBy(lsas: seq<Lsa>, p: nat) {
    p < |lsas| && forall l | l in lsas :: HasSender(lsas[..p + 1], l.sender)
  }

  lemma SeenBySnoc(lsas: seq<Lsa>, l: Lsa, p: nat)
    requires SeenBy(lsas, p) && HasSender(lsas, l.sender)
    ensures SeenBy(lsas + [l], p)
  {
    assert (lsas + [l])[..p + 1] == lsas[..p + 1];
  }

  /** After the last newcomer of a list nothing new appears. */
  lemma {:induction false} LastNewcomer(lsas: seq<Lsa>) returns (p: nat)
    requires lsas != []
    ensures SeenBy(lsas, p) && FirstSeen(lsas) != []
    ensures lsas[p].sender == FirstSeen(lsas)[|FirstSeen(lsas)| - 1]
    decreases |lsas|
  {
    hide SeenBy, FirstSeen, HasSender;
    var init, last := lsas[..|lsas| - 1], lsas[|lsas| - 1];
    assert lsas == init + [last];
    FirstSeenSnoc(init, last);
    if HasSender(init, last.sender) {
      SomeSender(init, last.sender);
      p := LastNewcomer(init);
      SeenBySnoc(init, last, p);
      SeenInRange(init, p);
    } else {
      p := |init|;
      SeenByAll(lsas);
    }
  }

  lemma SeenAt(lsas: seq<Lsa>, p: nat, j: nat)
    requires SeenBy(lsas, p) && j < |lsas|
    ensures exists i :: 0 <= i <= p && lsas[i].sender == lsas[j].sender
  {
    assert lsas[j] in lsas;
    var l :| l in lsas[..p + 1] && l.sender == lsas[j].sender;
    var i :| 0 <= i <= p && lsas[i] == l;
  }

  lemma SomeSender(lsas: seq<Lsa>, name: Name)
    requires HasSender(lsas, name)
    ensures lsas != []
  {
  }

  lemma SeenInRange(lsas: seq<Lsa>, p: nat)
    requires SeenBy(lsas, p)
    ensures p < |lsas|
  {
  }

  lemma SeenByAll(lsas: seq<Lsa>)
    requires lsas != []
    ensures SeenBy(lsas, |lsas| - 1)
  {
    assert lsas[..|lsas|] == lsas;
  }

  /** Without losses a round announces its whole order. */
  lemma {:induction false} FullRound(links: Links, order: seq<Name>, round: nat, n: nat)
    requires n <= |order| && forall v | v in order :: v in links
    ensures var lsas := RoundLsas(links, order, round, ALL_HEARD, n);
      |lsas| == n && forall k | 0 <= k < n :: lsas[k].sender == order[k]
  {
    if n > 0 {
      FullRound(links, order, round, n - 1);
    }
  }

  /** Without losses the newcomers are those of the first round. */
  lemma {:induction false} FirstRoundDecides(links: Links, order: seq<Name>, rounds: nat)
    requires rounds > 0 && forall v | v in order :: v in links
    ensures FirstSeen(AllLsas(links, order, rounds, ALL_HEARD))
            == FirstSeen(RoundLsas(links, order, 0, ALL_HEARD, |order|))
    ensures forall v | v in order :: HasSender(AllLsas(links, order, rounds, ALL_HEARD), v)
  {
    hide RoundLsas, AllLsas, HasSender, FirstSeen;
    var round := RoundLsas(links, order, rounds - 1, ALL_HEARD, |order|);
    FullRound(links, order, rounds - 1, |order|);
    OneMoreRound(links, order, rounds, ALL_HEARD);
    forall v | v in order
      ensures HasSender(round, v)
    {
      SentBy(round, order, v);
    }
    if rounds == 1 {
      NoRound(links, order, ALL_HEARD);
      assert [] + round == round;
    } else {
      var before := AllLsas(links, order, rounds - 1, ALL_HEARD);
      FirstRoundDecides(links, order, rounds - 1);
      forall l | l in round
        ensures l.sender in order
      {
        var k :| 0 <= k < |round| && round[k] == l;
      }
      FirstSeenIgnores(before, round);
      forall v | v in order
        ensures HasSender(before + round, v)
      {
        SenderStays(before, round, v);
      }
    }
  }

  lemma SenderStays(a: seq<Lsa>, b: seq<Lsa>, v: Name)
    requires HasSender(a, v)
    ensures HasSender(a + b, v)
  {
    var l :| l in a && l.sender == v;
    assert l in a + b;
  }

  lemma SentBy(lsas: seq<Lsa>, order: seq<Name>, v: Name)
    requires |lsas| == |order| && (forall k | 0 <= k < |order| :: lsas[k].sender == order[k]) && v in order
    ensures HasSender(lsas, v)
  {
    var k :| 0 <= k < |order| && order[k] == v;
    assert lsas[k] in lsas;
  }

  /** The newest newcomer comes first in the database. */
  lemma NewcomerFirst(lsas: seq<Lsa>, db: seq<Lsa>)
    requires IsNewest(lsas, db) && FirstSeen(lsas) != []
    ensures db != [] && db[0].sender == FirstSeen(lsas)[|FirstSeen(lsas)| - 1]
  {
  }

  /** Every name of `order` occurs at or before position `p`. */
  ghost predicate NamedBy(order: seq<Name>, p: nat) {
    p < |order| && forall x | x in order :: x in order[..p + 1]
  }

  lemma SeenIsNamed(lsas: seq<Lsa>, order: seq<Name>, p: nat)
    requires |lsas| == |order| && (forall k | 0 <= k < |order| :: lsas[k].sender == order[k]) && SeenBy(lsas, p)
    ensures NamedBy(order, p)
  {
    SeenInRange(lsas, p);
    forall x | x in order
      ensures x in order[..p + 1]
    {
      var j :| 0 <= j < |order| && order[j] == x;
      SeenAt(lsas, p, j);
      var i :| 0 <= i <= p && lsas[i].sender == lsas[j].sender;
      assert order[..p + 1][i] == x;
    }
  }

  /** The entry at index 0, with nothing lost: the last newcomer of a round. */
  lemma OriginIsLastNewcomer(links: Links, sink: Name, rounds: nat) returns (p: nat)
    requires GoodTopology(links, sink) && rounds > 0
    ensures var db, order := DatabaseOf(links, sink, rounds, ALL_HEARD), Bfs.RoundOrder(links, sink);
      db != [] && NamedBy(order, p) && p < |order| && db[0].sender == order[p]
  {
    hide RoundLsas, AllLsas, Load, Bfs.RoundOrder, IsNewest, FirstSeen, SeenBy, NamedBy, DatabaseOf, PerSenderOrdered;
    var order := Bfs.RoundOrder(links, sink);
    RoundNotEmpty(links, sink);
    Bfs.RoundCoversReachable(links, sink);
    var round := RoundLsas(links, order, 0, ALL_HEARD, |order|);
    FullRound(links, order, 0, |order|);
    FirstRoundDecides(links, order, rounds);
    p := LastNewcomer(round);
    SeenInRange(round, p);
    SeenIsNamed(round, order, p);
    DatabaseIsNewest(links, sink, rounds, ALL_HEARD);
    NewcomerFirst(Survivors(links, sink, rounds, ALL_HEARD), DatabaseOf(links, sink, rounds, ALL_HEARD));
  }

  lemma RoundNotEmpty(links: Links, sink: Name)
    requires GoodTopology(links, sink)
    ensures Bfs.RoundOrder(links, sink) != []
  {
  }

  /** Which node is the source of all the shortest paths. Without losses it is the last newcomer of a round, and so its last
      node if no node announces twice; and no reachable node is farther from the sink, unless the sink announces itself last. */
  lemma OriginIsFarthest(links: Links, sink: Name, rounds: nat)
    requires GoodTopology(links, sink) && rounds > 0
    ensures var db, order := DatabaseOf(links, sink, rounds, ALL_HEARD), Bfs.RoundOrder(links, sink);
      && db != [] && order != []
      && (NoDuplicates(order) ==> db[0].sender == order[|order| - 1])
      && (db[0].sender == sink ==> sink in links[sink])
      && (db[0].sender != sink ==>
            forall x, n | Reachable(links, sink, x) && Within(links, sink, db[0].sender, n) :: Within(links, sink, x, n))
  {
    hide DatabaseOf, Bfs.RoundOrder, NamedBy, Within, Reachable;
    var order := Bfs.RoundOrder(links, sink);
    var p := OriginIsLastNewcomer(links, sink, rounds);
    Bfs.RoundCoversReachable(links, sink);
    assert order[p] in order;
    if NoDuplicates(order) {
      LastOfDistinct(order, p);
    }
    if order[p] != sink {
      RoundSortedButSink(links, sink);
      forall x, n | Reachable(links, sink, x) && Within(links, sink, order[p], n)
        ensures Within(links, sink, x, n)
      {
        FarthestStep(links, sink, order, p, x, n);
      }
    }
  }

  lemma LastOfDistinct(order: seq<Name>, p: nat)
    requires NamedBy(order, p) && NoDuplicates(order)
    ensures p == |order| - 1
  {
    assert order[|order| - 1] in order;
    var i :| 0 <= i <= p && order[..p + 1][i] == order[|order| - 1];
  }

  lemma RoundSortedButSink(links: Links, sink: Name)
    requires Closed(links) && sink in links
    ensures Bfs.NonDecreasingButSink(links, sink, Bfs.RoundOrder(links, sink))
  {
    Bfs.FirstLayer(links, sink);
    Bfs.OrderSorted(links, sink, links[sink], {sink}, 1, |links[sink]|);
  }

  lemma FarthestStep(links: Links, sink: Name, order: seq<Name>, p: nat, x: Name, n: int)
    requires NamedBy(order, p) && order[p] != sink && Bfs.NonDecreasingButSink(links, sink, order)
    requires Within(links, sink, order[p], n) && (x == sink || x in order)
    ensures Within(links, sink, x, n)
  {
    if x == sink {
      WithinSelf(links, sink, n);
    } else {
      var i :| 0 <= i <= p && order[..p + 1][i] == x;
      assert order[i] == x;
    }
  }

  // ----- the answer

  /** Server `k` sits at a node of `known` fewer than 9 hops from `origin`, and no server sits at one with fewer hops. */
  ghost predicate NearestByHops(links: Links, known: set<Name>, snames: seq<string>, origin: Name, k: int) {
    exists x, d ::
      && x in known && 0 <= k < |snames| && SitsAt(snames[k], x)
      && HopDistance(links, origin, x, d) && d < INFINITY
      && forall y, k', e | y in known && 0 <= k' < |snames| && SitsAt(snames[k'], y)
                           && HopDistance(links, origin, y, e) :: d <= e
  }

  /** No server sits at a node of `known` fewer than 9 hops from `origin`. */
  ghost predicate NoneNear(links: Links, known: set<Name>, snames: seq<string>, origin: Name) {
    forall y, k, e | y in known && 0 <= k < |snames| && SitsAt(snames[k], y) && HopDistance(links, origin, y, e) ::
      e >= INFINITY
  }

  /** No name of a known node is a proper prefix of a server's address. */
  ghost predicate NoFalsePrefix(known: set<Name>, snames: seq<string>) {
    forall y, k | y in known && 0 <= k < |snames| :: !(y < Address(snames[k]))
  }

  /** Servers that sit at nodes with prefix-free names have no false prefix. */
  lemma PrefixFreeServers(db: seq<Lsa>, snames: seq<string>, at: seq<int>)
    requires PrefixFree(db) && OwnTexts(db, snames, at)
    ensures NoFalsePrefix(Senders(db), snames)
  {
    forall y, k | y in Senders(db) && 0 <= k < |snames|
      ensures !(y < Address(snames[k]))
    {
      var i :| 0 <= i < |db| && db[i].sender == y;
      assert Address(snames[k]) == db[at[k]].sender;
    }
  }

  lemma MatchesIsSitting(known: set<Name>, snames: seq<string>, y: Name, k: int)
    requires NoFalsePrefix(known, snames) && y in known && '\n' !in y && 0 <= k < |snames|
    ensures Matches(snames[k], y) <==> SitsAt(snames[k], y)
  {
    MatchesAddress(snames[k], y);
  }

  lemma KnownNamesAreWords(links: Links, sink: Name, rounds: nat, heard: (nat, nat) -> bool, y: Name)
    requires GoodTopology(links, sink) && y in HeardNodes(links, sink, rounds, heard)
    ensures '\n' !in y
  {
    assert IsWord(y, WHITESPACE + {','});
  }

  /** The position and the computed distance of a known node. */
  lemma EntryOf(links: Links, sink: Name, rounds: nat, heard: (nat, nat) -> bool, dist: seq<int>, y: Name, e: int)
    returns (i: int)
    requires GoodTopology(links, sink) && y in HeardNodes(links, sink, rounds, heard)
    requires DatabaseOf(links, sink, rounds, heard) != []
    requires DistancesFrom(DatabaseOf(links, sink, rounds, heard), 0, dist)
    ensures var db, g := DatabaseOf(links, sink, rounds, heard), Restricted(links, HeardNodes(links, sink, rounds, heard));
      && 0 <= i < |db| && db[i].sender == y && HopDistance(g, db[0].sender, y, dist[i])
      && (HopDistance(g, db[0].sender, y, e) ==> dist[i] == e)
  {
    hide DatabaseOf, HeardNodes, HopDistance, Restricted;
    var db, g := DatabaseOf(links, sink, rounds, heard), Restricted(links, HeardNodes(links, sink, rounds, heard));
    SendersAreHeard(links, sink, rounds, heard);
    i :| 0 <= i < |db| && db[i].sender == y;
    DistancesUnderLoss(links, sink, rounds, heard, 0, i, dist[i]);
    if HopDistance(g, db[0].sender, y, e) {
      HopDistanceUnique(g, db[0].sender, y, e, dist[i]);
    }
  }

  /** The pick, for every loss pattern: nearest in hops over what the nodes heard announce. */
  lemma PickByHops(links: Links, sink: Name, rounds: nat, heard: (nat, nat) -> bool, snames: seq<string>, dist: seq<int>)
    requires GoodTopology(links, sink) && DatabaseOf(links, sink, rounds, heard) != []
    requires DistancesFrom(DatabaseOf(links, sink, rounds, heard), 0, dist)
    requires NoFalsePrefix(HeardNodes(links, sink, rounds, heard), snames)
    ensures var db, known := DatabaseOf(links, sink, rounds, heard), HeardNodes(links, sink, rounds, heard);
      && (NoPick(db, snames, dist) ==> NoneNear(Restricted(links, known), known, snames, db[0].sender))
      && forall i, k | IsPick(db, snames, dist, i, k) ::
           NearestByHops(Restricted(links, known), known, snames, db[0].sender, k)
  {
    hide DatabaseOf, HeardNodes, HopDistance, Restricted, DistancesFrom, Matches, SitsAt, NoFalsePrefix;
    var db, known := DatabaseOf(links, sink, rounds, heard), HeardNodes(links, sink, rounds, heard);
    var g, origin := Restricted(links, known), db[0].sender;
    SendersAreHeard(links, sink, rounds, heard);
    DistancesCover(db, dist);
    forall y, k, e | y in known && 0 <= k < |snames| && SitsAt(snames[k], y) && HopDistance(g, origin, y, e)
      ensures exists i :: 0 <= i < |db| && Matches(snames[k], db[i].sender) && dist[i] == e
    {
      var i := EntryOf(links, sink, rounds, heard, dist, y, e);
      KnownNamesAreWords(links, sink, rounds, heard, y);
      MatchesIsSitting(known, snames, y, k);
    }
    forall i, k | IsPick(db, snames, dist, i, k)
      ensures NearestByHops(g, known, snames, origin, k)
    {
      var x := db[i].sender;
      assert x in Senders(db);
      KnownNamesAreWords(links, sink, rounds, heard, x);
      MatchesIsSitting(known, snames, x, k);
      PickedDistance(links, sink, rounds, heard, dist, i);
    }
  }

  lemma DistancesCover(db: seq<Lsa>, dist: seq<int>)
    requires DistancesFrom(db, 0, dist)
    ensures |dist| == |db|
  {
  }

  lemma PickedDistance(links: Links, sink: Name, rounds: nat, heard: (nat, nat) -> bool, dist: seq<int>, i: int)
    requires GoodTopology(links, sink)
    requires var db := DatabaseOf(links, sink, rounds, heard); 0 <= i < |db| && DistancesFrom(db, 0, dist)
    ensures var db, g := DatabaseOf(links, sink, rounds, heard), Restricted(links, HeardNodes(links, sink, rounds, heard));
      HopDistance(g, db[0].sender, db[i].sender, dist[i])
  {
    hide DatabaseOf, HeardNodes, HopDistance, Restricted;
    DistancesUnderLoss(links, sink, rounds, heard, 0, i, dist[i]);
  }

  /** Nearness over what is announced is nearness over the links when the distances are the same. */
  lemma NearnessTransfers(g: Links, h: Links, known: set<Name>, snames: seq<string>, origin: Name)
    requires forall y, d | y in known :: HopDistance(g, origin, y, d) <==> HopDistance(h, origin, y, d)
    ensures NoneNear(g, known, snames, origin) ==> NoneNear(h, known, snames, origin)
    ensures forall k | NearestByHops(g, known, snames, origin, k) :: NearestByHops(h, known, snames, origin, k)
  {
    hide HopDistance, SitsAt;
  }

  /** The name server alone, for every loss pattern that leaves something: load the generator's output and resolve one
      request. The server found is the nearest to the node at index 0, over what the nodes heard announce. */
  method Resolve(text: string, ghost links: Links, ghost sink: Name, ghost rounds: nat, ghost heard: (nat, nat) -> bool,
                 client: string, serverHead: ServerNode?, ghost servers: seq<ServerNode>)
    returns (ret: ServerNode?)
    requires GoodTopology(links, sink) && HeardNodes(links, sink, rounds, heard) != {}
    requires text == AllText(links, sink, rounds, heard) && Chain(serverHead, servers)
    requires NoFalsePrefix(HeardNodes(links, sink, rounds, heard), Names(servers))
    ensures var db, known := DatabaseOf(links, sink, rounds, heard), HeardNodes(links, sink, rounds, heard);
      && db != []
      && (ret == null ==> NoneNear(Restricted(links, known), known, Names(servers), db[0].sender))
      && (ret != null ==> exists k ::
            NearestByHops(Restricted(links, known), known, Names(servers), db[0].sender, k) && ret == servers[k])
  {
    hide HeardNodes, NearestByHops, NoneNear, NoFalsePrefix, Restricted, IsPick, NoPick, DistancesFrom;
    var graph := new GraphList.Graph();
    var status := graph.Init(Some(text));
    ghost var db := DatabaseOf(links, sink, rounds, heard);
    assert graph.Contents() == db;
    SendersAreHeard(links, sink, rounds, heard);
    ghost var dist;
    ret, dist := graph.QueryDns(client, serverHead, servers);
    PickByHops(links, sink, rounds, heard, Names(servers), dist);
  }

  /** The two programs in sequence: generate the announcements, load them, and resolve one request. When everyone is
      heard, and the sink too unless it is bypassed, the server found is the nearest, by hops in the links of the
      file, to the node whose first announcement came last. */
  method ServeFromTopology(lines: seq<seq<string>>, sink: Name, rounds: nat, heard: (nat, nat) -> bool, client: string,
                           serverHead: ServerNode?, ghost servers: seq<ServerNode>)
    returns (ret: ServerNode?)
    requires LinesComplete(lines) && sink in Named(lines) && Chain(serverHead, servers)
    requires var links := LinksOf(lines);
      && NamesPrintable(links) && EveryoneHeard(links, sink, rounds, heard)
      && HeardNodes(links, sink, rounds, heard) != {}
      && (sink in HeardNodes(links, sink, rounds, heard) || Bypassed(links, sink))
      && NoFalsePrefix(HeardNodes(links, sink, rounds, heard), Names(servers))
    ensures var links := LinksOf(lines);
      var known, db := HeardNodes(links, sink, rounds, heard), DatabaseOf(links, sink, rounds, heard);
      && db != []
      && (ret == null ==> NoneNear(links, known, Names(servers), db[0].sender))
      && (ret != null ==> exists k :: NearestByHops(links, known, Names(servers), db[0].sender, k) && ret == servers[k])
  {
    hide HeardAt, NearestByHops, NoneNear, NoFalsePrefix, Restricted, DatabaseOf, Bypassed, EveryoneHeard;
    var text, links := Generate(lines, sink, rounds, heard);
    TopologyWellFormed(lines, links);
    assert rounds > 0;
    ret := Resolve(text.value, links, sink, rounds, heard, client, serverHead, servers);
    AnswerOverLinks(links, sink, rounds, heard, Names(servers));
  }

  /** Under those conditions nearness over the announcements is nearness over the links. */
  lemma AnswerOverLinks(links: Links, sink: Name, rounds: nat, heard: (nat, nat) -> bool, snames: seq<string>)
    requires GoodTopology(links, sink) && EveryoneHeard(links, sink, rounds, heard)
    requires sink in HeardNodes(links, sink, rounds, heard) || Bypassed(links, sink)
    requires DatabaseOf(links, sink, rounds, heard) != []
    ensures var db, known := DatabaseOf(links, sink, rounds, heard), HeardNodes(links, sink, rounds, heard);
      var origin := db[0].sender;
      && (NoneNear(Restricted(links, known), known, snames, origin) ==> NoneNear(links, known, snames, origin))
      && forall k | NearestByHops(Restricted(links, known), known, snames, origin, k) ::
           NearestByHops(links, known, snames, origin, k)
  {
    hide HeardNodes, HopDistance, DatabaseOf, Restricted, Bypassed, EveryoneHeard, NearestByHops, NoneNear, Complete;
    var db, known := DatabaseOf(links, sink, rounds, heard), HeardNodes(links, sink, rounds, heard);
    var origin := db[0].sender;
    SendersAreHeard(links, sink, rounds, heard);
    HeardIsComplete(links, sink, rounds, heard);
    assert origin in Senders(db);
    forall y, d | y in known
      ensures HopDistance(Restricted(links, known), origin, y, d) <==> HopDistance(links, origin, y, d)
    {
      RestrictionDistance(links, sink, known, origin, y, d);
      SeenDistance(links, sink, known, origin, y, d);
    }
    NearnessTransfers(Restricted(links, known), links, known, snames, origin);
  }
}
