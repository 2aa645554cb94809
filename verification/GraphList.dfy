/** The linked list `graph_list` of src/dijkstra.c and the functions that build and query it. */
module GraphList {
  import opened Text
  import opened Walks
  import opened Generator
  import opened Database
  import opened ShortestPaths
  import opened Selection
  import opened Servers

  class ListNode {
    var index: int
    var name: Name
    var seqnum: int
    var neighbors: seq<Name>
    var next: ListNode?

    constructor (name: Name, seqnum: int, neighbors: seq<Name>, next: ListNode?)
      ensures this.name == name && this.seqnum == seqnum && this.neighbors == neighbors && this.next == next
    {
      this.name, this.seqnum, this.neighbors, this.next := name, seqnum, neighbors, next;
    }

    ghost function Entry(): Lsa
      reads this
    {
      Lsa(name, seqnum, neighbors)
    }
  }

  class Graph {
    var head: ListNode?
    ghost var nodes: seq<ListNode>

    ghost predicate Valid()
      reads this, nodes
    {
      && head == (if nodes == [] then null else nodes[0])
      && (forall i {:trigger nodes[i].next} | 0 <= i < |nodes| :: nodes[i].next == if i + 1 < |nodes| then nodes[i + 1] else null)
      && (forall i, j | 0 <= i < j < |nodes| :: nodes[i] != nodes[j])
    }

    /** The database that the list represents. */
    ghost function Contents(): (db: seq<Lsa>)
      reads this, nodes
      ensures |db| == |nodes| && forall i | 0 <= i < |db| :: db[i] == nodes[i].Entry()
    {
      seq(|nodes|, i requires 0 <= i < |nodes| reads this, nodes => nodes[i].Entry())
    }

    ghost predicate Indexed()
      reads this, nodes
    {
      forall i | 0 <= i < |nodes| :: nodes[i].index == i
    }

    constructor ()
      ensures Valid() && nodes == []
    {
      head := null;
      nodes := [];
    }

    /** The search by name at the top of the loop of `graph_init`. */
    method Search(name: Name) returns (p: ListNode?)
      requires Valid()
      ensures var k := Find(Contents(), name);
        p == if k < |nodes| then nodes[k] else null
    {
      ghost var k, db := 0, Contents();
      p := head;
      while p != null && p.name != name
        invariant k <= |nodes| && p == (if k < |nodes| then nodes[k] else null)
        invariant forall i | 0 <= i < k :: db[i].sender != name
        decreases |nodes| - k
      {
        p := p.next;
        k := k + 1;
      }
      assert k < |nodes| ==> db[k].sender == name;
      FindUnique(db, name, k);
    }

    /** Both ways of recording an announcement: overwrite the entry found, or put a new node in front. */
    method Record(p: ListNode?, name: Name, seqnum: int, neighbors: seq<Name>)
      requires Valid()
      requires var k := Find(Contents(), name); p == if k < |nodes| then nodes[k] else null
      modifies this, nodes
      ensures Valid() && fresh(set n | n in nodes && n !in old(nodes))
      ensures Contents() == Store(old(Contents()), Lsa(name, seqnum, neighbors))
    {
      hide *;
      ghost var db, l := Contents(), Lsa(name, seqnum, neighbors);
      FindBound(db, name);
      StoreAt(db, l);
      if p == null {
        Prepend(name, seqnum, neighbors);
      } else {
        Overwrite(p, Find(db, name), seqnum, neighbors);
      }
    }

    /** A new node in front of the list. */
    method Prepend(name: Name, seqnum: int, neighbors: seq<Name>)
      requires Valid()
      modifies this
      ensures Valid() && fresh(set n | n in nodes && n !in old(nodes))
      ensures Contents() == [Lsa(name, seqnum, neighbors)] + old(Contents())
    {
      var element := new ListNode(name, seqnum, neighbors, head);
      head := element;
      nodes := [element] + nodes;
      assert forall i | 0 < i < |nodes| :: nodes[i] == old(nodes)[i - 1];
    }

    /** New contents for an existing node. */
    method Overwrite(p: ListNode, ghost k: nat, seqnum: int, neighbors: seq<Name>)
      requires Valid() && k < |nodes| && p == nodes[k]
      modifies p
      ensures Valid() && nodes == old(nodes)
      ensures Contents() == old(Contents())[k := Lsa(old(Contents())[k].sender, seqnum, neighbors)]
    {
      p.seqnum := seqnum;
      p.neighbors := neighbors;
      assert forall i | 0 <= i < |nodes| && i != k :: nodes[i] != p;
    }

    /** One iteration of the loop of `graph_init`: a stale record is left after its second token. */
    method ReadRecord(tokens: seq<string>) returns (rest: seq<string>)
      requires Valid() && tokens != []
      modifies this, nodes
      ensures Valid() && fresh(set n | n in nodes && n !in old(nodes))
      ensures var db, seqnum := old(Contents()), Atoi(TokenAt(tokens, 1));
        if Stale(db, tokens[0], seqnum) then rest == After(tokens, 2) && Contents() == db
        else rest == After(tokens, 3)
             && Contents() == Store(db, Lsa(tokens[0], seqnum, Fields(TokenAt(tokens, 2), {','})))
      ensures |rest| < |tokens| && Load(Contents(), rest) == Load(old(Contents()), tokens)
    {
      ghost var db := Contents();
      var name := tokens[0];
      var p := Search(name);
      var seqnum := Atoi(TokenAt(tokens, 1));
      assert p != null ==> db[Find(db, name)] == p.Entry();
      if p != null && seqnum < p.seqnum {
        assert Stale(db, name, seqnum);
        return After(tokens, 2);
      }
      assert !Stale(db, name, seqnum);
      Record(p, name, seqnum, Fields(TokenAt(tokens, 2), {','}));
      return After(tokens, 3);
    }

    /** `graph_init`: -1 when the file cannot be opened, and otherwise the list that `Load` describes. */
    method Init(file: Option<string>) returns (ret: int)
      modifies this
      ensures Valid() && fresh(nodes)
      ensures ret == if file.Some? then 0 else -1
      ensures file.None? ==> nodes == []
      ensures file.Some? ==> Contents() == Load([], Fields(file.value, WHITESPACE))
    {
      hide Load, Fields;
      head := null;
      nodes := [];
      if file.None? {
        return -1;
      }
      var tokens := Fields(file.value, WHITESPACE);
      ghost var all := tokens;
      assert Contents() == [];
      while tokens != []
        invariant Valid() && fresh(nodes)
        invariant Load(Contents(), tokens) == Load([], all)
        decreases |tokens|
      {
        tokens := ReadRecord(tokens);
      }
      LoadNothing(Contents());
      return 0;
    }

    /** The scans `for( p = graph_list; ...; if( p->index == i) break)`. */
    method NodeAt(i: int) returns (p: ListNode?)
      requires Valid() && Indexed() && 0 <= i < |nodes|
      ensures p == nodes[i]
    {
      ghost var k := 0;
      p := head;
      while p != null && p.index != i
        invariant k <= |nodes| && p == (if k < |nodes| then nodes[k] else null)
        invariant k <= i
        decreases |nodes| - k
      {
        p := p.next;
        k := k + 1;
      }
    }

    /** `exist_route`. */
    method ExistRoute(src: int, dst: int) returns (r: int)
      requires Valid() && Indexed() && 0 <= src < |nodes| && 0 <= dst < |nodes|
      ensures r == LinkWeight(Contents(), src, dst)
    {
      if src == dst {
        return INFINITY;
      }
      var p := NodeAt(dst);
      var q := NodeAt(src);
      for i := 0 to |q.neighbors|
        invariant p.name !in q.neighbors[..i]
      {
        if q.neighbors[i] == p.name {
          return 1;
        }
      }
      return INFINITY;
    }

    /** The numbering at the start of `query_dns`. */
    method AssignIndices() returns (count: int)
      requires Valid()
      modifies nodes
      ensures Valid() && Indexed() && count == |nodes|
      ensures Contents() == old(Contents())
    {
      var p := head;
      count := 0;
      while p != null
        invariant 0 <= count <= |nodes| && p == if count < |nodes| then nodes[count] else null
        invariant nodes == old(nodes) && head == old(head) && Valid()
        invariant forall i | 0 <= i < count :: nodes[i].index == i
        invariant forall i | 0 <= i < |nodes| :: nodes[i].Entry() == old(nodes[i].Entry())
        decreases |nodes| - count
      {
        p.index := count;
        p := p.next;
        count := count + 1;
      }
      assert Contents() == old(Contents());
    }

    /** The matrix that `query_dns` hands to `dijkstra`. */
    method BuildMatrix(count: int) returns (graph: array2<int>)
      requires Valid() && Indexed() && count == |nodes|
      ensures fresh(graph) && graph.Length0 == graph.Length1 == count
      ensures Rows(graph) == DbMatrix(Contents())
    {
      graph := new int[count, count];
      ghost var g := DbMatrix(Contents());
      for i := 0 to count
        invariant forall x, y | 0 <= x < i && 0 <= y < count :: graph[x, y] == g[x][y]
      {
        for j := 0 to count
          invariant forall x, y | 0 <= x < i && 0 <= y < count :: graph[x, y] == g[x][y]
          invariant forall y | 0 <= y < j :: graph[i, y] == g[i][y]
        {
          graph[i, j] := ExistRoute(i, j);
        }
      }
      assert forall x | 0 <= x < count :: Rows(graph)[x] == g[x];
    }

    /** The double loop of `query_dns` over nodes and servers. */
    method ChooseServer(dist: array<int>, serverHead: ServerNode?, ghost servers: seq<ServerNode>) returns (ret: ServerNode?)
      requires Valid() && Indexed() && dist.Length == |nodes| && Chain(serverHead, servers)
      ensures ret == null ==> NoPick(Contents(), Names(servers), dist[..])
      ensures ret != null ==>
                exists i, k :: IsPick(Contents(), Names(servers), dist[..], i, k) && ret == servers[k]
    {
      hide Matches;
      ghost var db, snames, d := Contents(), Names(servers), dist[..];
      var min := INFINITY;
      ret := null;
      ghost var bi, bk := 0, 0;
      for i := 0 to dist.Length
        invariant Best(db, snames, d, i, 0, bi, bk, min)
        invariant ret == if min < INFINITY then servers[bk] else null
      {
        var p := NodeAt(i);
        var q := serverHead;
        ghost var k := 0;
        while q != null
          invariant k <= |servers| && q == if k < |servers| then servers[k] else null
          invariant Best(db, snames, d, i, k, bi, bk, min)
          invariant ret == if min < INFINITY then servers[bk] else null
          decreases |servers| - k
        {
          assert p.name == db[i].sender && q.sname == snames[k] && dist[i] == d[i];
          if Matches(q.sname, p.name) {
            if min > dist[i] {
              ret, bi, bk := q, i, k;
              min := dist[i];
            }
          }
          q := q.next;
          k := k + 1;
        }
      }
      if ret != null {
        assert IsPick(Contents(), Names(servers), dist[..], bi, bk) && ret == servers[bk];
      }
    }

    /** `query_dns`. The answer does not depend on `src`: the source of the shortest paths is always node 0.
        A null answer stands for the dereference of NULL in C. */
    method QueryDns(src: string, serverHead: ServerNode?, ghost servers: seq<ServerNode>)
      returns (ret: ServerNode?, ghost dist: seq<int>)
      requires Valid() && nodes != [] && Chain(serverHead, servers)
      modifies nodes
      ensures Valid() && Contents() == old(Contents())
      ensures DistancesFrom(Contents(), 0, dist)
      ensures ret == null ==> NoPick(Contents(), Names(servers), dist)
      ensures ret != null ==> exists i, k :: IsPick(Contents(), Names(servers), dist, i, k) && ret == servers[k]
    {
      var count := AssignIndices();
      var graph := BuildMatrix(count);
      var distances := Dijkstra(graph, 0);
      ret := ChooseServer(distances, serverHead, servers);
      dist := distances[..];
    }
  }

  /** The choice after all servers at nodes below `i` and the first `k` servers at node `i`. */
  ghost predicate Best(db: seq<Lsa>, snames: seq<string>, dist: seq<int>, i: int, k: int, bi: int, bk: int, min: int)
    requires |dist| == |db|
  {
    && min <= INFINITY
    && (min < INFINITY ==>
          && 0 <= bi < |db| && 0 <= bk < |snames| && (bi < i || (bi == i && bk < k))
          && Matches(snames[bk], db[bi].sender) && dist[bi] == min)
    && forall x, y | 0 <= x < |db| && 0 <= y < |snames| && (x < i || (x == i && y < k)) && Matches(snames[y], db[x].sender) ::
         min <= dist[x] && (min < INFINITY && min == dist[x] ==> bi < x || (bi == x && bk <= y))
  }

  lemma FindBound(db: seq<Lsa>, name: Name)
    ensures var k := Find(db, name); k < |db| ==> db[k].sender == name
  {
  }

  lemma StoreAt(db: seq<Lsa>, l: Lsa)
    ensures var k := Find(db, l.sender);
      Store(db, l) == if k < |db| then db[k := l] else [l] + db
  {
  }

  lemma LoadNothing(db: seq<Lsa>)
    ensures Load(db, []) == db
  {
  }

  lemma {:induction false} FindUnique(db: seq<Lsa>, name: Name, k: nat)
    requires k <= |db| && (k < |db| ==> db[k].sender == name)
    requires forall i | 0 <= i < k :: db[i].sender != name
    ensures Find(db, name) == k
  {
    if k > 0 {
      FindUnique(db[1..], name, k - 1);
    }
  }
}
