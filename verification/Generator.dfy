/** The announcements of lsa/genlsa.py: how one is printed, and the text that a number of rounds prints.
    Whether an announcement survives (`random.random() > loss_rate`) is an arbitrary function of the round
    and the position within the round. */
module Generator {
  import opened Text
  import opened Walks
  import opened Topology
  import Bfs

  /** One link-state announcement. */
  datatype Lsa = Lsa(sender: Name, seqnum: int, neighbors: seq<Name>)

  /** `lsa_string`: sender, sequence number and the comma-separated neighbours. */
  function LsaString(l: Lsa): string
    requires l.seqnum >= 0
  {
    l.sender + " " + Itoa(l.seqnum) + " " + Join(l.neighbors, ',')
  }

  /** What `print` writes for it. */
  function Line(l: Lsa): string
    requires l.seqnum >= 0
  {
    LsaString(l) + "\n"
  }

  ghost predicate Numbered(lsas: seq<Lsa>) {
    forall l | l in lsas :: l.seqnum >= 0
  }

  /** The announcements as printed, one line each. */
  function Print(lsas: seq<Lsa>): string
    requires Numbered(lsas)
  {
    if lsas == [] then "" else Line(lsas[0]) + Print(lsas[1..])
  }

  /** The announcements that survive among the first `n` of a round. */
  function RoundLsas(links: Links, order: seq<Name>, round: nat, heard: (nat, nat) -> bool, n: nat): (r: seq<Lsa>)
    requires n <= |order| && forall v | v in order :: v in links
    ensures Numbered(r)
  {
    if n == 0 then []
    else
      RoundLsas(links, order, round, heard, n - 1)
      + if heard(round, n - 1) then [Lsa(order[n - 1], round, links[order[n - 1]])] else []
  }

  /** The announcements that survive in the first `rounds` rounds. */
  function AllLsas(links: Links, order: seq<Name>, rounds: nat, heard: (nat, nat) -> bool): (r: seq<Lsa>)
    requires forall v | v in order :: v in links
    ensures Numbered(r)
  {
    if rounds == 0 then []
    else AllLsas(links, order, rounds - 1, heard) + RoundLsas(links, order, rounds - 1, heard, |order|)
  }

  /** The inner loop of `generate_LSAs`. */
  method EnqueueNeighbors(neighbors: seq<Name>, visited: set<Name>, queue: seq<Name>) returns (toVisit: seq<Name>)
    ensures toVisit == Bfs.Enqueue(neighbors, visited, queue)
  {
    toVisit := queue;
    for i := 0 to |neighbors|
      invariant Bfs.Enqueue(neighbors[i..], visited, toVisit) == Bfs.Enqueue(neighbors, visited, queue)
    {
      var neighbor := neighbors[i];
      if neighbor !in visited && neighbor !in toVisit {
        toVisit := toVisit + [neighbor];
      }
      assert neighbors[i..][1..] == neighbors[i + 1..];
    }
  }

  /** The text of a whole round. */
  ghost function RoundText(links: Links, sink: Name, round: nat, heard: (nat, nat) -> bool): string
    requires Closed(links) && sink in links
  {
    var order := Bfs.RoundOrder(links, sink);
    Bfs.RoundCoversReachable(links, sink);
    Print(RoundLsas(links, order, round, heard, |order|))
  }

  /** The text of the first `rounds` rounds. */
  ghost function AllText(links: Links, sink: Name, rounds: nat, heard: (nat, nat) -> bool): string
    requires Closed(links) && sink in links
  {
    Bfs.RoundCoversReachable(links, sink);
    Print(AllLsas(links, Bfs.RoundOrder(links, sink), rounds, heard))
  }

  /** The loop invariant of a round: `position` nodes are done, `text` is what they printed, and the
      queue determines the rest. */
  ghost predicate Progress(links: Links, sink: Name, round: nat, heard: (nat, nat) -> bool,
                           toVisit: seq<Name>, visited: set<Name>, position: nat, text: string)
    requires Closed(links) && sink in links
  {
    var order := Bfs.RoundOrder(links, sink);
    && (forall x | x in toVisit :: x in links)
    && (forall x | x in order :: x in links)
    && position <= |order| && order[position..] == Bfs.Order(links, toVisit, visited)
    && text == Print(RoundLsas(links, order, round, heard, position))
  }

  lemma ProgressStep(links: Links, sink: Name, round: nat, heard: (nat, nat) -> bool,
                     toVisit: seq<Name>, visited: set<Name>, position: nat, text: string)
    requires Closed(links) && sink in links && toVisit != []
    requires Progress(links, sink, round, heard, toVisit, visited, position, text)
    ensures position < |Bfs.RoundOrder(links, sink)|
    ensures var v := toVisit[0];
      v in links
      && Progress(links, sink, round, heard, Bfs.Enqueue(links[v], visited + {v}, toVisit[1..]), visited + {v}, position + 1,
                  text + if heard(round, position) then Line(Lsa(v, round, links[v])) else "")
  {
    var order := Bfs.RoundOrder(links, sink);
    Bfs.OrderPop(links, toVisit, visited, order, position);
    PrintRoundStep(links, order, round, heard, position);
  }

  /** `generate_LSAs`: one round. `None` is the KeyError of a sink that no link mentions. */
  method GenerateLsas(links: Links, sink: Name, round: nat, heard: (nat, nat) -> bool) returns (out: Option<string>)
    requires Closed(links)
    ensures out.None? <==> sink !in links
    ensures out.Some? ==> out.value == RoundText(links, sink, round, heard)
  {
    if sink !in links {
      return None;
    }
    var visited := {sink};
    var toVisit := links[sink];
    var text := "";
    var position := 0;
    Bfs.RoundCoversReachable(links, sink);
    while toVisit != []
      invariant Progress(links, sink, round, heard, toVisit, visited, position, text)
      decreases |Bfs.RoundOrder(links, sink)| - position
    {
      var current := toVisit[0];
      ProgressStep(links, sink, round, heard, toVisit, visited, position, text);
      visited := visited + {current};
      toVisit := EnqueueNeighbors(links[current], visited, toVisit[1..]);
      if heard(round, position) {
        text := text + Line(Lsa(current, round, links[current]));
      } else {
        assert text + "" == text;
      }
      position := position + 1;
    }
    return Some(text);
  }

  /** `main`: read the links, then run the rounds. `None` is either error of the two functions. */
  method Generate(lines: seq<seq<string>>, sink: Name, rounds: nat, heard: (nat, nat) -> bool)
    returns (out: Option<string>, links: Links)
    ensures out.None? <==> !LinesComplete(lines) || (rounds > 0 && sink !in Named(lines))
    ensures out.Some? ==> Describes(lines, links) && Closed(links)
    ensures out.Some? && rounds > 0 ==> sink in links && out.value == AllText(links, sink, rounds, heard)
  {
    var read := ReadLinks(lines);
    if read.None? {
      return None, map[];
    }
    links := read.value;
    TopologyWellFormed(lines, links);
    var text := "";
    for i := 0 to rounds
      invariant i > 0 ==> sink in links
      invariant sink in links ==> text == AllText(links, sink, i, heard)
    {
      var round := GenerateLsas(links, sink, i, heard);
      if round.None? {
        return None, links;
      }
      AllTextStep(links, sink, i, heard);
      text := text + round.value;
    }
    return Some(text), links;
  }

  // ----- lemmas

  lemma ConcatAssociative(a: string, b: string, c: string)
    ensures a + (b + c) == (a + b) + c
  {
  }

  lemma {:induction false} PrintConcat(a: seq<Lsa>, b: seq<Lsa>)
    requires Numbered(a) && Numbered(b)
    ensures Numbered(a + b) && Print(a + b) == Print(a) + Print(b)
  {
    if a == [] {
      assert a + b == b;
    } else {
      PrintConcat(a[1..], b);
      assert (a + b)[0] == a[0] && (a + b)[1..] == a[1..] + b;
      ConcatAssociative(Line(a[0]), Print(a[1..]), Print(b));
    }
  }

  lemma PrintSnoc(lsas: seq<Lsa>, l: Lsa)
    requires Numbered(lsas) && l.seqnum >= 0
    ensures Numbered(lsas + [l]) && Print(lsas + [l]) == Print(lsas) + Line(l)
  {
    PrintConcat(lsas, [l]);
    assert Print([l]) == Line(l) + "";
  }

  lemma PrintRoundStep(links: Links, order: seq<Name>, round: nat, heard: (nat, nat) -> bool, n: nat)
    requires n < |order| && forall v | v in order :: v in links
    ensures Print(RoundLsas(links, order, round, heard, n + 1))
            == Print(RoundLsas(links, order, round, heard, n))
               + if heard(round, n) then Line(Lsa(order[n], round, links[order[n]])) else ""
  {
    var before := RoundLsas(links, order, round, heard, n);
    if heard(round, n) {
      PrintSnoc(before, Lsa(order[n], round, links[order[n]]));
    } else {
      assert before + [] == before;
    }
  }

  lemma AllTextStep(links: Links, sink: Name, rounds: nat, heard: (nat, nat) -> bool)
    requires Closed(links) && sink in links
    ensures AllText(links, sink, rounds + 1, heard)
            == AllText(links, sink, rounds, heard) + RoundText(links, sink, rounds, heard)
  {
    var order := Bfs.RoundOrder(links, sink);
    Bfs.RoundCoversReachable(links, sink);
    PrintConcat(AllLsas(links, order, rounds, heard), RoundLsas(links, order, rounds, heard, |order|));
  }

  /** Some announcement of `v` survives in round `round`. */
  ghost predicate HeardIn(order: seq<Name>, heard: (nat, nat) -> bool, v: Name, round: nat) {
    exists k: nat :: k < |order| && order[k] == v && heard(round, k)
  }

  lemma {:induction false} RoundLsasContents(links: Links, order: seq<Name>, round: nat, heard: (nat, nat) -> bool, n: nat)
    requires n <= |order| && forall v | v in order :: v in links
    ensures forall l :: l in RoundLsas(links, order, round, heard, n) <==>
              exists k: nat :: k < n && heard(round, k) && l == Lsa(order[k], round, links[order[k]])
  {
    if n > 0 {
      RoundLsasContents(links, order, round, heard, n - 1);
    }
  }

  /** How many of the first `n` announcements of a round survive. */
  function Survivors(round: nat, heard: (nat, nat) -> bool, n: nat): nat {
    if n == 0 then 0 else Survivors(round, heard, n - 1) + if heard(round, n - 1) then 1 else 0
  }

  /** The survivors of a round keep its order: each is printed behind as many as survive before it. */
  lemma {:induction false} RoundKeepsOrder(links: Links, order: seq<Name>, round: nat, heard: (nat, nat) -> bool,
                                           n: nat, k: nat)
    requires k < n <= |order| && heard(round, k) && forall v | v in order :: v in links
    ensures var lsas, i := RoundLsas(links, order, round, heard, n), Survivors(round, heard, k);
      i < |lsas| == Survivors(round, heard, n) && lsas[i] == Lsa(order[k], round, links[order[k]])
  {
    RoundSize(links, order, round, heard, n - 1);
    if k < n - 1 {
      RoundKeepsOrder(links, order, round, heard, n - 1, k);
    }
  }

  lemma {:induction false} RoundSize(links: Links, order: seq<Name>, round: nat, heard: (nat, nat) -> bool, n: nat)
    requires n <= |order| && forall v | v in order :: v in links
    ensures |RoundLsas(links, order, round, heard, n)| == Survivors(round, heard, n)
  {
    if n > 0 {
      RoundSize(links, order, round, heard, n - 1);
    }
  }

  /** `l` is an announcement that its sender makes and that survives: the sender's exact neighbour list. */
  ghost predicate Announced(links: Links, order: seq<Name>, heard: (nat, nat) -> bool, l: Lsa) {
    && l.seqnum >= 0 && HeardIn(order, heard, l.sender, l.seqnum)
    && l.sender in links && l.neighbors == links[l.sender]
  }

  lemma RoundAnnounced(links: Links, order: seq<Name>, round: nat, heard: (nat, nat) -> bool)
    requires forall v | v in order :: v in links
    ensures forall l :: l in RoundLsas(links, order, round, heard, |order|) <==>
              l.seqnum == round && Announced(links, order, heard, l)
  {
    RoundLsasContents(links, order, round, heard, |order|);
    forall l: Lsa | l.seqnum == round && Announced(links, order, heard, l)
      ensures l in RoundLsas(links, order, round, heard, |order|)
    {
      var k: nat :| k < |order| && order[k] == l.sender && heard(l.seqnum, k);
      assert l == Lsa(order[k], round, links[order[k]]);
    }
  }

  lemma OneMoreRound(links: Links, order: seq<Name>, rounds: nat, heard: (nat, nat) -> bool)
    requires rounds > 0 && forall v | v in order :: v in links
    ensures AllLsas(links, order, rounds, heard)
            == AllLsas(links, order, rounds - 1, heard) + RoundLsas(links, order, rounds - 1, heard, |order|)
  {
  }

  lemma NoRound(links: Links, order: seq<Name>, heard: (nat, nat) -> bool)
    requires forall v | v in order :: v in links
    ensures AllLsas(links, order, 0, heard) == []
    ensures forall l | Announced(links, order, heard, l) :: l.seqnum >= 0
  {
  }

  /** What was printed: for each node heard in a round, its exact neighbour list under that round's number;
      and nothing else. */
  lemma {:induction false} AllLsasContents(links: Links, order: seq<Name>, rounds: nat, heard: (nat, nat) -> bool)
    requires forall v | v in order :: v in links
    ensures forall l :: l in AllLsas(links, order, rounds, heard) <==>
              l.seqnum < rounds && Announced(links, order, heard, l)
  {
    hide *;
    if rounds == 0 {
      NoRound(links, order, heard);
    } else {
      AllLsasContents(links, order, rounds - 1, heard);
      RoundAnnounced(links, order, rounds - 1, heard);
      OneMoreRound(links, order, rounds, heard);
    }
  }

  ghost predicate Sorted(lsas: seq<Lsa>) {
    forall i, j | 0 <= i < j < |lsas| :: lsas[i].seqnum <= lsas[j].seqnum
  }

  lemma SortedConcat(a: seq<Lsa>, b: seq<Lsa>, n: int)
    requires Sorted(a) && forall l | l in a :: l.seqnum <= n
    requires forall l | l in b :: l.seqnum == n
    ensures Sorted(a + b)
  {
    forall i, j | 0 <= i < j < |a + b|
      ensures (a + b)[i].seqnum <= (a + b)[j].seqnum
    {
      assert (a + b)[i] == if i < |a| then a[i] else b[i - |a|];
      assert (a + b)[j] == if j < |a| then a[j] else b[j - |a|];
    }
  }

  /** Sequence numbers never decrease over the whole output. */
  lemma {:induction false} AllLsasSorted(links: Links, order: seq<Name>, rounds: nat, heard: (nat, nat) -> bool)
    requires forall v | v in order :: v in links
    ensures Sorted(AllLsas(links, order, rounds, heard))
  {
    hide RoundLsas, AllLsas, Announced;
    if rounds == 0 {
      NoRound(links, order, heard);
    } else {
      AllLsasSorted(links, order, rounds - 1, heard);
      AllLsasContents(links, order, rounds - 1, heard);
      RoundAnnounced(links, order, rounds - 1, heard);
      RoundSorted(RoundLsas(links, order, rounds - 1, heard, |order|), rounds - 1);
      OneMoreRound(links, order, rounds, heard);
      SortedConcat(AllLsas(links, order, rounds - 1, heard),
                   RoundLsas(links, order, rounds - 1, heard, |order|), rounds - 1);
    }
  }

  lemma RoundSorted(lsas: seq<Lsa>, n: int)
    requires forall l | l in lsas :: l.seqnum == n
    ensures Sorted(lsas)
  {
  }
}
