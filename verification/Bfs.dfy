/** The breadth-first walk of `generate_LSAs` (lsa/genlsa.py): which nodes announce themselves, and in what order. */
module Bfs {
  import opened Walks

  /** The queue after the inner loop over the neighbours of the current node. */
  function Enqueue(neighbors: seq<Name>, visited: set<Name>, queue: seq<Name>): (r: seq<Name>)
    ensures queue <= r
    ensures NoDuplicates(r[|queue|..])
    ensures forall x | x in r[|queue|..] :: x in neighbors && x !in visited && x !in queue
    ensures forall x | x in neighbors :: x in visited || x in r
    decreases |neighbors|
  {
    if neighbors == [] then queue
    else
      var n := neighbors[0];
      var queue' := if n !in visited && n !in queue then queue + [n] else queue;
      var r := Enqueue(neighbors[1..], visited, queue');
      AddedStep(neighbors, visited, queue, queue', r);
      r
  }

  /** `r` is the queue, then new names among `neighbors`, once each. */
  ghost predicate Added(neighbors: seq<Name>, visited: set<Name>, queue: seq<Name>, r: seq<Name>) {
    && queue <= r
    && NoDuplicates(r[|queue|..])
    && forall x | x in r[|queue|..] :: x in neighbors && x !in visited && x !in queue
  }

  lemma AddedStep(neighbors: seq<Name>, visited: set<Name>, queue: seq<Name>, queue': seq<Name>, r: seq<Name>)
    requires neighbors != [] && Added(neighbors[1..], visited, queue', r)
    requires var n := neighbors[0]; queue' == if n !in visited && n !in queue then queue + [n] else queue
    requires forall x | x in neighbors[1..] :: x in visited || x in r
    ensures Added(neighbors, visited, queue, r) && forall x | x in neighbors :: x in visited || x in r
  {
    var n, added := neighbors[0], r[|queue'|..];
    assert neighbors == [n] + neighbors[1..] && r == queue' + added;
    if queue' != queue {
      assert r[|queue|..] == [n] + added;
    }
  }

  /** The nodes popped by the outer loop, in order. */
  function Order(links: Links, queue: seq<Name>, visited: set<Name>): seq<Name>
    requires Closed(links) && forall x | x in queue :: x in links
    decreases links.Keys - visited - Elems(queue), |queue|
  {
    if queue == [] then []
    else
      var v := queue[0];
      var queue' := Enqueue(links[v], visited + {v}, queue[1..]);
      EnqueueProgress(links, queue, visited);
      [v] + Order(links, queue', visited + {v})
  }

  lemma EnqueueProgress(links: Links, queue: seq<Name>, visited: set<Name>)
    requires Closed(links) && queue != [] && forall x | x in queue :: x in links
    ensures var queue' := Enqueue(links[queue[0]], visited + {queue[0]}, queue[1..]);
      && (forall x | x in queue' :: x in links)
      && (if |queue'| == |queue| - 1 then links.Keys - (visited + {queue[0]}) - Elems(queue') == links.Keys - visited - Elems(queue)
          else links.Keys - (visited + {queue[0]}) - Elems(queue') < links.Keys - visited - Elems(queue))
  {
    var v := queue[0];
    var tail := queue[1..];
    assert queue == [v] + tail;
    var queue' := Enqueue(links[v], visited + {v}, tail);
    var added := queue'[|tail|..];
    assert queue' == tail + added;
    assert forall x :: x in queue <==> x == v || x in tail;
    assert forall x :: x in queue' <==> x in tail || x in added;
    if added == [] {
    } else {
      assert added[0] in added;
      assert added[0] in links.Keys - visited - Elems(queue);
    }
  }

  /** One iteration of the outer loop, seen from the whole order. */
  lemma OrderPop(links: Links, queue: seq<Name>, visited: set<Name>, order: seq<Name>, position: nat)
    requires Closed(links) && queue != [] && forall x | x in queue :: x in links
    requires position <= |order| && order[position..] == Order(links, queue, visited)
    ensures var queue' := Enqueue(links[queue[0]], visited + {queue[0]}, queue[1..]);
      && position < |order| && order[position] == queue[0]
      && (forall x | x in queue' :: x in links)
      && order[position + 1..] == Order(links, queue', visited + {queue[0]})
  {
    EnqueueProgress(links, queue, visited);
    assert order[position + 1..] == order[position..][1..];
  }

  /** The order in which one round announces: the sink's own list first, `visited` holding only the sink. */
  function RoundOrder(links: Links, sink: Name): seq<Name>
    requires Closed(links) && sink in links
  {
    Order(links, links[sink], {sink})
  }

  // ----- what is emitted

  /** `o` is the list `queue`, followed by nodes outside `queue` and `visited`, once each. */
  ghost predicate Extends(o: seq<Name>, queue: seq<Name>, visited: set<Name>) {
    && queue <= o
    && NoDuplicates(o[|queue|..])
    && forall x | x in o[|queue|..] :: x !in visited && x !in queue
  }

  lemma ExtendsStep(o: seq<Name>, queue': seq<Name>, queue: seq<Name>, visited: set<Name>)
    requires queue != []
    requires Extends(queue', queue[1..], visited + {queue[0]})
    requires Extends(o, queue', visited + {queue[0]})
    ensures Extends([queue[0]] + o, queue, visited)
  {
    var tail := queue[1..];
    var a, b := queue'[|tail|..], o[|queue'|..];
    assert queue' == tail + a && o == queue' + b && queue == [queue[0]] + tail;
    NoDuplicatesConcat(a, b);
    assert ([queue[0]] + o)[|queue|..] == a + b;
  }

  /** The queue is emitted as it stands, followed by new nodes, once each. */
  lemma {:induction false} OrderShape(links: Links, queue: seq<Name>, visited: set<Name>)
    requires Closed(links) && forall x | x in queue :: x in links
    ensures Extends(Order(links, queue, visited), queue, visited)
    decreases links.Keys - visited - Elems(queue), |queue|
  {
    if queue != [] {
      var v := queue[0];
      var queue' := Enqueue(links[v], visited + {v}, queue[1..]);
      EnqueueProgress(links, queue, visited);
      OrderShape(links, queue', visited + {v});
      ExtendsStep(Order(links, queue', visited + {v}), queue', queue, visited);
    }
  }

  lemma NoDuplicatesConcat(a: seq<Name>, b: seq<Name>)
    requires NoDuplicates(a) && NoDuplicates(b) && forall x | x in a :: x !in b
    ensures NoDuplicates(a + b)
  {
    forall i, j | 0 <= i < j < |a + b|
      ensures (a + b)[i] != (a + b)[j]
    {
      if i < |a| && |a| <= j {
        assert (a + b)[i] in a && (a + b)[j] in b;
      }
    }
  }

  /** Neighbours of visited nodes are visited or waiting. */
  ghost predicate Explored(links: Links, queue: seq<Name>, visited: set<Name>) {
    forall x, y | x in visited && Edge(links, x, y) :: y in visited || y in queue
  }

  lemma ExploredStep(links: Links, queue: seq<Name>, visited: set<Name>)
    requires Closed(links) && queue != [] && forall x | x in queue :: x in links
    requires Explored(links, queue, visited)
    ensures Explored(links, Enqueue(links[queue[0]], visited + {queue[0]}, queue[1..]), visited + {queue[0]})
  {
    var v, tail := queue[0], queue[1..];
    var queue' := Enqueue(links[v], visited + {v}, tail);
    forall x, y | x in visited + {v} && Edge(links, x, y)
      ensures y in visited + {v} || y in queue'
    {
      if x != v {
        assert y in visited || y in queue;
        assert queue == [v] + tail;
      }
    }
  }

  /** What was visited, together with what is emitted, is closed under links. */
  lemma {:induction false} OrderClosed(links: Links, queue: seq<Name>, visited: set<Name>)
    requires Closed(links) && forall x | x in queue :: x in links
    requires Explored(links, queue, visited)
    ensures var o := Order(links, queue, visited);
      forall x, y | (x in visited || x in o) && Edge(links, x, y) :: y in visited || y in o
    decreases links.Keys - visited - Elems(queue), |queue|
  {
    if queue != [] {
      var v := queue[0];
      var queue' := Enqueue(links[v], visited + {v}, queue[1..]);
      EnqueueProgress(links, queue, visited);
      ExploredStep(links, queue, visited);
      OrderClosed(links, queue', visited + {v});
      var o' := Order(links, queue', visited + {v});
      assert Order(links, queue, visited) == [v] + o';
      assert forall x :: x in [v] + o' <==> x == v || x in o';
    }
  }

  /** Only nodes reachable from the sink are emitted. */
  lemma {:induction false} OrderReachable(links: Links, sink: Name, queue: seq<Name>, visited: set<Name>)
    requires Closed(links) && forall x | x in queue :: x in links
    requires forall x | x in queue :: Reachable(links, sink, x)
    ensures forall x | x in Order(links, queue, visited) :: x in links && Reachable(links, sink, x)
    decreases links.Keys - visited - Elems(queue), |queue|
  {
    if queue != [] {
      var v, tail := queue[0], queue[1..];
      var queue' := Enqueue(links[v], visited + {v}, tail);
      EnqueueProgress(links, queue, visited);
      EnqueueReachable(links, sink, v, visited + {v}, tail);
      OrderReachable(links, sink, queue', visited + {v});
      assert Order(links, queue, visited) == [v] + Order(links, queue', visited + {v});
    }
  }

  lemma EnqueueReachable(links: Links, sink: Name, v: Name, visited: set<Name>, tail: seq<Name>)
    requires v in links && Reachable(links, sink, v) && forall x | x in tail :: Reachable(links, sink, x)
    ensures forall x | x in Enqueue(links[v], visited, tail) :: Reachable(links, sink, x)
  {
    var queue' := Enqueue(links[v], visited, tail);
    assert queue' == tail + queue'[|tail|..];
    var p :| Walk(links, sink, v, p);
    forall x | x in queue' && x !in tail
      ensures Reachable(links, sink, x)
    {
      WalkExtend(links, sink, v, x, p);
    }
  }

  // ----- in which order it is emitted

  /** `x` is exactly `d` hops away, the sink itself aside. */
  ghost predicate AtLevel(links: Links, sink: Name, x: Name, d: nat) {
    Within(links, sink, x, d) && (x == sink || !Within(links, sink, x, d - 1))
  }

  /** The loop invariant of breadth-first search: the queue holds `k` nodes of level `d`, then nodes of
      level `d + 1`, and everything within `d` hops has been seen. */
  ghost predicate Layered(links: Links, sink: Name, queue: seq<Name>, visited: set<Name>, d: nat, k: nat) {
    && k <= |queue|
    && (forall i | 0 <= i < k :: AtLevel(links, sink, queue[i], d))
    && (forall i | k <= i < |queue| :: AtLevel(links, sink, queue[i], d + 1))
    && (forall x | Within(links, sink, x, d) :: x in visited || x in queue)
    && sink in visited
    && Explored(links, queue, visited)
  }

  /** No node of `o` is closer to the sink than a node before it. */
  ghost predicate NonDecreasing(links: Links, sink: Name, o: seq<Name>) {
    forall i, j, n: nat | 0 <= i < j < |o| && Within(links, sink, o[j], n) :: Within(links, sink, o[i], n)
  }

  /** The same, ignoring entries that are the sink itself. */
  ghost predicate NonDecreasingButSink(links: Links, sink: Name, o: seq<Name>) {
    forall i, j, n: nat | 0 <= i < j < |o| && o[j] != sink && Within(links, sink, o[j], n) ::
      Within(links, sink, o[i], n)
  }

  lemma NextLayer(links: Links, sink: Name, queue: seq<Name>, visited: set<Name>, d: nat)
    requires Layered(links, sink, queue, visited, d, 0)
    ensures Layered(links, sink, queue, visited, d + 1, |queue|)
  {
    forall x | Within(links, sink, x, d + 1)
      ensures x in visited || x in queue
    {
      if x != sink {
        var u := WithinLastHop(links, sink, x, d + 1);
        assert Within(links, sink, u, d);
        assert forall i | 0 <= i < |queue| :: AtLevel(links, sink, queue[i], d + 1);
        assert u in visited;
      }
    }
  }

  lemma LayeredStep(links: Links, sink: Name, queue: seq<Name>, visited: set<Name>, d: nat, k: nat)
    requires Closed(links) && forall x | x in queue :: x in links
    requires Layered(links, sink, queue, visited, d, k) && 0 < k
    ensures Layered(links, sink, Enqueue(links[queue[0]], visited + {queue[0]}, queue[1..]), visited + {queue[0]}, d, k - 1)
  {
    var v, tail := queue[0], queue[1..];
    var queue' := Enqueue(links[v], visited + {v}, tail);
    assert queue == [v] + tail;
    ExploredStep(links, queue, visited);
    forall i | 0 <= i < |queue'|
      ensures AtLevel(links, sink, queue'[i], if i < k - 1 then d else d + 1)
    {
      if i < |tail| {
        assert queue'[i] == queue[i + 1];
      } else {
        var w := queue'[i];
        assert w == queue'[|tail|..][i - |tail|] && w in queue'[|tail|..];
        assert w !in visited && w !in queue;
        assert AtLevel(links, sink, queue[0], d);
        WithinExtend(links, sink, v, w, d);
      }
    }
  }

  lemma {:induction false} OrderSorted(links: Links, sink: Name, queue: seq<Name>, visited: set<Name>, d: nat, k: nat)
    requires Closed(links) && forall x | x in queue :: x in links
    requires Layered(links, sink, queue, visited, d, k)
    ensures NonDecreasingButSink(links, sink, Order(links, queue, visited))
    ensures forall x | x in Order(links, queue, visited) && x != sink :: !Within(links, sink, x, d - 1)
    decreases links.Keys - visited - Elems(queue), |queue|, if k == 0 then 1 else 0
  {
    if queue == [] {
    } else if k == 0 {
      NextLayer(links, sink, queue, visited, d);
      OrderSorted(links, sink, queue, visited, d + 1, |queue|);
    } else {
      var v := queue[0];
      var queue' := Enqueue(links[v], visited + {v}, queue[1..]);
      EnqueueProgress(links, queue, visited);
      LayeredStep(links, sink, queue, visited, d, k);
      OrderSorted(links, sink, queue', visited + {v}, d, k - 1);
      assert AtLevel(links, sink, queue[0], d);
      SortedCons(links, sink, v, Order(links, queue', visited + {v}), d);
    }
  }

  lemma SortedCons(links: Links, sink: Name, v: Name, o: seq<Name>, d: nat)
    requires AtLevel(links, sink, v, d)
    requires NonDecreasingButSink(links, sink, o)
    requires forall x | x in o && x != sink :: !Within(links, sink, x, d - 1)
    ensures NonDecreasingButSink(links, sink, [v] + o)
    ensures forall x | x in [v] + o && x != sink :: !Within(links, sink, x, d - 1)
  {
    var o' := [v] + o;
    forall i, j, n: nat | 0 <= i < j < |o'| && o'[j] != sink && Within(links, sink, o'[j], n)
      ensures Within(links, sink, o'[i], n)
    {
      assert o'[j] == o[j - 1] && o[j - 1] in o;
      assert i == 0 ==> n >= d;
    }
  }

  // ----- the main results about one round

  /** A round announces exactly the nodes that the sink can reach (the sink itself: only through its own list). */
  lemma RoundCoversReachable(links: Links, sink: Name)
    requires Closed(links) && sink in links
    ensures forall x | x != sink :: x in RoundOrder(links, sink) <==> Reachable(links, sink, x)
    ensures sink in RoundOrder(links, sink) <==> sink in links[sink]
    ensures forall x | x in RoundOrder(links, sink) :: x in links
  {
    var o := RoundOrder(links, sink);
    OrderShape(links, links[sink], {sink});
    assert o == o[..|links[sink]|] + o[|links[sink]|..];
    OrderClosed(links, links[sink], {sink});
    forall x | x in links[sink]
      ensures Reachable(links, sink, x)
    {
      assert Walk(links, sink, x, [sink, x]);
    }
    OrderReachable(links, sink, links[sink], {sink});
    forall x | Reachable(links, sink, x) && x != sink
      ensures x in o
    {
      var p :| Walk(links, sink, x, p);
      WalkStaysInside(links, {sink} + Elems(o), sink, x, p);
      assert x in p;
    }
  }

  /** Every reachable node but the sink announces itself once, and the sink never, exactly when the sink's
      own list has no duplicates and does not contain the sink. */
  lemma RoundAnnouncesOnce(links: Links, sink: Name)
    requires Closed(links) && sink in links
    ensures NoDuplicates(RoundOrder(links, sink)) && sink !in RoundOrder(links, sink)
            <==> NoDuplicates(links[sink]) && sink !in links[sink]
  {
    var o, q := RoundOrder(links, sink), links[sink];
    OrderShape(links, q, {sink});
    assert o == q + o[|q|..];
    if NoDuplicates(q) && sink !in q {
      forall i, j | 0 <= i < j < |o|
        ensures o[i] != o[j]
      {
        if j >= |q| {
          assert o[j] == o[|q|..][j - |q|] && o[j] in o[|q|..];
          if i >= |q| {
            assert o[i] == o[|q|..][i - |q|];
          }
        }
      }
    }
    if NoDuplicates(o) {
      forall i, j | 0 <= i < j < |q|
        ensures q[i] != q[j]
      {
        assert o[i] == q[i] && o[j] == q[j];
      }
    }
  }

  /** A round announces in order of hop distance from the sink exactly when no node precedes the sink
      in the sink's own list; in particular whenever the sink has no link to itself. */
  lemma RoundInHopOrder(links: Links, sink: Name)
    requires Closed(links) && sink in links
    ensures NonDecreasing(links, sink, RoundOrder(links, sink))
            <==> forall i, j | 0 <= i < j < |links[sink]| && links[sink][j] == sink :: links[sink][i] == sink
  {
    var o, q := RoundOrder(links, sink), links[sink];
    OrderShape(links, q, {sink});
    assert o == q + o[|q|..];
    FirstLayer(links, sink);
    OrderSorted(links, sink, q, {sink}, 1, |q|);
    if i, j :| 0 <= i < j < |q| && q[j] == sink && q[i] != sink {
      assert o[i] == q[i] && o[j] == q[j];
      WithinSelf(links, sink, 0);
      assert !NonDecreasing(links, sink, o);
    } else {
      forall i, j, n: nat | 0 <= i < j < |o| && Within(links, sink, o[j], n)
        ensures Within(links, sink, o[i], n)
      {
        if o[j] == sink {
          assert j < |q|;
          assert o[i] == sink;
        }
      }
    }
  }

  lemma FirstLayer(links: Links, sink: Name)
    requires Closed(links) && sink in links
    ensures Layered(links, sink, links[sink], {sink}, 1, |links[sink]|)
  {
    var q := links[sink];
    WithinSelf(links, sink, 0);
    forall i | 0 <= i < |q|
      ensures AtLevel(links, sink, q[i], 1)
    {
      WithinExtend(links, sink, sink, q[i], 0);
    }
    forall x | Within(links, sink, x, 1)
      ensures x == sink || x in q
    {
      if x != sink {
        var u := WithinLastHop(links, sink, x, 1);
        assert u == sink;
      }
    }
  }

  // ----- the order within a level

  /** The first position of a name. */
  function FirstAt(names: seq<Name>, x: Name): (k: nat)
    ensures k <= |names| && (k < |names| ==> names[k] == x) && forall i | 0 <= i < k :: names[i] != x
  {
    if names == [] || names[0] == x then 0 else 1 + FirstAt(names[1..], x)
  }

  /** The first position in an order whose node lists `x` as a neighbour. */
  function FirstParent(links: Links, order: seq<Name>, x: Name): (p: nat)
    ensures p <= |order| && (p < |order| ==> Edge(links, order[p], x))
    ensures forall r | 0 <= r < p :: !Edge(links, order[r], x)
  {
    if order == [] || (order[0] in links && x in links[order[0]]) then 0 else 1 + FirstParent(links, order[1..], x)
  }

  /** `x` goes before `y`: its earliest neighbour is announced earlier, or lists it earlier. */
  ghost predicate Before(links: Links, order: seq<Name>, x: Name, y: Name) {
    var p, q := FirstParent(links, order, x), FirstParent(links, order, y);
    p < |order| && (p < q || (p == q && FirstAt(links[order[p]], x) < FirstAt(links[order[p]], y)))
  }

  /** What is enqueued stands in the order of the neighbour list. */
  ghost predicate ListOrder(neighbors: seq<Name>, added: seq<Name>) {
    forall i, j | 0 <= i < j < |added| :: FirstAt(neighbors, added[i]) < FirstAt(neighbors, added[j])
  }

  lemma ListOrderRest(neighbors: seq<Name>, added: seq<Name>)
    requires neighbors != [] && ListOrder(neighbors[1..], added) && neighbors[0] !in added
    ensures ListOrder(neighbors, added) && ListOrder(neighbors, [neighbors[0]] + added)
  {
    var n, longer := neighbors[0], [neighbors[0]] + added;
    forall i | 0 <= i < |added|
      ensures FirstAt(neighbors, added[i]) == 1 + FirstAt(neighbors[1..], added[i])
    {
      assert added[i] in added;
    }
    forall i, j | 0 <= i < j < |longer|
      ensures FirstAt(neighbors, longer[i]) < FirstAt(neighbors, longer[j])
    {
      assert longer[j] == added[j - 1] && (i > 0 ==> longer[i] == added[i - 1]);
    }
  }

  lemma EnqueueNext(neighbors: seq<Name>, visited: set<Name>, queue: seq<Name>) returns (queue': seq<Name>)
    requires neighbors != []
    ensures queue' == queue || (queue' == queue + [neighbors[0]] && neighbors[0] !in queue)
    ensures neighbors[0] in visited || neighbors[0] in queue'
    ensures Enqueue(neighbors, visited, queue) == Enqueue(neighbors[1..], visited, queue')
  {
    queue' := if neighbors[0] !in visited && neighbors[0] !in queue then queue + [neighbors[0]] else queue;
  }

  lemma TailAfter(r: seq<Name>, queue: seq<Name>, n: Name)
    requires queue + [n] <= r
    ensures r[|queue|..] == [n] + r[|queue| + 1..]
  {
  }

  lemma {:induction false} EnqueueInOrder(neighbors: seq<Name>, visited: set<Name>, queue: seq<Name>)
    ensures ListOrder(neighbors, Enqueue(neighbors, visited, queue)[|queue|..])
    decreases |neighbors|
  {
    hide *;
    var r := Enqueue(neighbors, visited, queue);
    if neighbors == [] {
      NothingEnqueued(visited, queue);
      NothingInOrder(neighbors);
    } else {
      var queue' := EnqueueNext(neighbors, visited, queue);
      EnqueueInOrder(neighbors[1..], visited, queue');
      ListOrderRest(neighbors, r[|queue'|..]);
      if queue' != queue {
        TailAfter(r, queue, neighbors[0]);
      }
    }
  }

  lemma NothingEnqueued(visited: set<Name>, queue: seq<Name>)
    ensures Enqueue([], visited, queue)[|queue|..] == []
  {
  }

  lemma NothingInOrder(neighbors: seq<Name>)
    ensures ListOrder(neighbors, [])
  {
  }

  /** Positions `from` to `end` of an order are families: children of earlier nodes before children of later ones, siblings
      as they are listed; and all their earliest neighbours are before position `p`. */
  ghost predicate Families(links: Links, order: seq<Name>, from: nat, end: nat, p: nat)
    requires from <= end <= |order|
  {
    && (forall j | from <= j < end :: FirstParent(links, order, order[j]) < p && FirstParent(links, order, order[j]) < j)
    && forall i, j | from <= i < j < end :: Before(links, order, order[i], order[j])
  }

  lemma ParentIs(links: Links, order: seq<Name>, x: Name, p: nat)
    requires p < |order| && Edge(links, order[p], x) && forall r | 0 <= r < p :: !Edge(links, order[r], x)
    ensures FirstParent(links, order, x) == p
  {
  }

  /** One step: the names that node `p` adds are its children, in order, and come after all families so far. */
  lemma FamilyStep(links: Links, order: seq<Name>, from: nat, end: nat, p: nat, added: seq<Name>)
    requires from <= end && end + |added| <= |order| && p < end && order[end..end + |added|] == added
    requires Families(links, order, from, end, p) && order[p] in links
    requires forall x | x in added :: x in links[order[p]] && forall r | 0 <= r < p :: !Edge(links, order[r], x)
    requires ListOrder(links[order[p]], added)
    ensures Families(links, order, from, end + |added|, p + 1)
  {
    hide FirstParent, FirstAt;
    forall j | end <= j < end + |added|
      ensures FirstParent(links, order, order[j]) == p
    {
      assert order[j] == order[end..end + |added|][j - end] && order[j] in added;
      ParentIs(links, order, order[j], p);
    }
    forall i, j | from <= i < j < end + |added|
      ensures Before(links, order, order[i], order[j])
    {
      if i >= end {
        assert order[i] == added[i - end] && order[j] == added[j - end];
      }
    }
  }

  /** Where the run stands at position `p` of the order. */
  ghost predicate Standing(links: Links, sink: Name, order: seq<Name>, p: nat, queue: seq<Name>, visited: set<Name>) {
    && (forall x | x in order :: x in links) && (forall x | x in queue :: x in links)
    && p + |queue| <= |order| && order[p..p + |queue|] == queue
    && visited == {sink} + Elems(order[..p]) && Explored(links, queue, visited)
  }

  lemma Slice(order: seq<Name>, p: nat, queue: seq<Name>)
    requires p <= |order| && queue <= order[p..]
    ensures p + |queue| <= |order| && order[p..p + |queue|] == queue
  {
  }

  lemma SliceTail(order: seq<Name>, p: nat, queue: seq<Name>, k: nat)
    requires p + |queue| <= |order| && order[p..p + |queue|] == queue && k <= |queue|
    ensures order[p + k..p + |queue|] == queue[k..]
  {
  }

  lemma VisitedNext(order: seq<Name>, p: nat, sink: Name)
    requires p < |order|
    ensures {sink} + Elems(order[..p + 1]) == {sink} + Elems(order[..p]) + {order[p]}
  {
    assert order[..p + 1] == order[..p] + [order[p]];
  }

  lemma StandingStep(links: Links, sink: Name, order: seq<Name>, p: nat, queue: seq<Name>, visited: set<Name>)
    requires Closed(links) && Standing(links, sink, order, p, queue, visited) && queue != []
    requires order[p..] == Order(links, queue, visited)
    ensures var visited' := visited + {queue[0]};
      var queue' := Enqueue(links[queue[0]], visited', queue[1..]);
      && p < |order| && order[p] == queue[0] && Standing(links, sink, order, p + 1, queue', visited')
      && order[p + 1..] == Order(links, queue', visited')
  {
    hide Explored, Order, Enqueue, Elems, Extends;
    var visited' := visited + {queue[0]};
    var queue' := Enqueue(links[queue[0]], visited', queue[1..]);
    OrderPop(links, queue, visited, order, p);
    ExploredStep(links, queue, visited);
    OrderShape(links, queue', visited');
    StartsWithQueue(Order(links, queue', visited'), queue', visited');
    Slice(order, p + 1, queue');
    VisitedNext(order, p, sink);
  }

  lemma StartsWithQueue(o: seq<Name>, queue: seq<Name>, visited: set<Name>)
    requires Extends(o, queue, visited)
    ensures queue <= o
  {
  }

  /** What node `p` adds are its children, and nobody's before. */
  lemma AddedAreChildren(links: Links, sink: Name, order: seq<Name>, p: nat, queue: seq<Name>, visited: set<Name>)
    requires Closed(links) && Standing(links, sink, order, p, queue, visited) && queue != []
    ensures var added := Enqueue(links[queue[0]], visited + {queue[0]}, queue[1..])[|queue| - 1..];
      forall x | x in added :: x in links[queue[0]] && forall r | 0 <= r < p :: !Edge(links, order[r], x)
  {
    var added := Enqueue(links[queue[0]], visited + {queue[0]}, queue[1..])[|queue| - 1..];
    assert queue == [queue[0]] + queue[1..];
    forall x, r | x in added && 0 <= r < p
      ensures !Edge(links, order[r], x)
    {
      assert order[r] == order[..p][r] && order[r] in visited && x !in visited && x !in queue;
    }
  }

  lemma {:induction false} OrderInFamilies(links: Links, sink: Name, order: seq<Name>, from: nat, p: nat, queue: seq<Name>,
                                           visited: set<Name>)
    requires Closed(links) && Standing(links, sink, order, p, queue, visited) && from <= p + |queue|
    requires order[p..] == Order(links, queue, visited) && Families(links, order, from, p + |queue|, p)
    ensures from <= |order| && Families(links, order, from, |order|, |order|)
    decreases |order| - p
  {
    hide Families, Explored, ListOrder, FirstParent, Before, Order, Enqueue, Elems;
    if queue == [] {
      NothingLeft(links, visited);
    } else {
      var tail, visited' := queue[1..], visited + {queue[0]};
      var queue' := Enqueue(links[queue[0]], visited', tail);
      StandingStep(links, sink, order, p, queue, visited);
      AddedAreChildren(links, sink, order, p, queue, visited);
      EnqueueInOrder(links[queue[0]], visited', tail);
      SliceTail(order, p + 1, queue', |tail|);
      FamilyStep(links, order, from, p + |queue|, p, queue'[|tail|..]);
      OrderInFamilies(links, sink, order, from, p + 1, queue', visited');
    }
  }

  lemma NothingLeft(links: Links, visited: set<Name>)
    requires Closed(links)
    ensures Order(links, [], visited) == []
  {
  }

  /** The order of a round, behind the sink's own list: of two nodes the one whose earliest announced neighbour is announced
      first is announced first, and of two with the same earliest neighbour the one that it lists first. */
  lemma RoundInFamilyOrder(links: Links, sink: Name, i: nat, j: nat)
    requires Closed(links) && sink in links
    requires |links[sink]| <= i < |RoundOrder(links, sink)| && |links[sink]| <= j < |RoundOrder(links, sink)| && i != j
    ensures var o := RoundOrder(links, sink);
      && FirstParent(links, o, o[i]) < i
      && (i < j <==> Before(links, o, o[i], o[j]))
  {
    hide Order, Families, FirstParent, FirstAt;
    var o, q := RoundOrder(links, sink), links[sink];
    RoundCoversReachable(links, sink);
    OrderShape(links, q, {sink});
    assert o[0..|q|] == q && o[..0] == [] && Elems(o[..0]) == {};
    FirstLayer(links, sink);
    NoFamilies(links, o, |q|);
    OrderInFamilies(links, sink, o, |q|, 0, q, {sink});
    FamiliesAt(links, o, |q|, |o|, i, j);
  }

  lemma NoFamilies(links: Links, order: seq<Name>, n: nat)
    requires n <= |order|
    ensures Families(links, order, n, n, 0)
  {
  }

  lemma FamiliesAt(links: Links, order: seq<Name>, from: nat, p: nat, i: nat, j: nat)
    requires from <= |order| && Families(links, order, from, |order|, p)
    requires from <= i < |order| && from <= j < |order| && i != j
    ensures FirstParent(links, order, order[i]) < i && (i < j <==> Before(links, order, order[i], order[j]))
  {
    hide FirstParent, FirstAt;
    if j < i {
      assert Before(links, order, order[j], order[i]);
    }
  }

  const DOUBLE: Links := map["s" := ["a", "a"], "a" := ["s", "s"]]

  /** For instance a link that is listed twice: the neighbour announces itself twice. */
  lemma DoubleLinkRepeats()
    ensures Closed(DOUBLE) && !NoDuplicates(RoundOrder(DOUBLE, "s"))
  {
    hide RoundOrder;
    RoundAnnouncesOnce(DOUBLE, "s");
    RoundCoversReachable(DOUBLE, "s");
    assert DOUBLE["s"][0] == DOUBLE["s"][1];
  }

  const SELF: Links := map["s" := ["a", "s", "s"], "a" := ["s"]]

  /** For instance a link of the sink to itself, listed after another link: the sink announces itself, after a node
      that is farther away. */
  lemma SelfLinkOutOfOrder()
    ensures Closed(SELF) && !NonDecreasing(SELF, "s", RoundOrder(SELF, "s"))
  {
    hide RoundOrder, NonDecreasing;
    RoundInHopOrder(SELF, "s");
    assert SELF["s"][1] == "s" && SELF["s"][0] != "s";
  }
}
