/** Round-robin answers of the name server (`handle_dns_request`, src/nameserver.c): one request at a time,
    and over runs of packets. */
module RoundRobin {
  import opened Text
  import opened Wire
  import opened Servers

  /** The checks at the top of `handle_dns_request`: long enough, and for the one name that is served. */
  predicate Accepts(packet: seq<Byte>) {
    |packet| >= HEADER_SIZE + NAME_SIZE && packet[HEADER_SIZE..HEADER_SIZE + NAME_SIZE] == VALID_DNS
  }

  /** What is accepted: every packet whose header is followed by the label form of the served name. */
  lemma AcceptsExactly(packet: seq<Byte>)
    ensures Accepts(packet) <==> |packet| >= 12 && Decode(packet[12..]) == Some(SERVED)
  {
    if |packet| >= 12 {
      ServedNameDecoded(packet[12..]);
      if |packet| >= 30 {
        assert packet[12..30] == packet[12..][..18];
      }
      assert VALID_DNS <= packet[12..] ==> packet[12..][..18] == VALID_DNS;
    }
  }

  /** A request as the proxy builds it, from twelve bytes of header and what `transfer_dns_name` leaves for the served name,
      is accepted, whatever follows. */
  method BuildRequest(header: seq<Byte>, tail: seq<Byte>) returns (packet: seq<Byte>)
    requires |header| == 12
    ensures Accepts(packet) && packet[..12] == header && |packet| == 30 + |tail|
  {
    var buffer := new Byte[NAME_SIZE](_ => 0);
    TransferServedName(buffer);
    packet := header + buffer[..] + tail;
    assert packet[12..30] == VALID_DNS;
  }

  /** The position of `*rr_ptr` after an accepted request; `None` is NULL. */
  function Next(pointer: Option<nat>, n: nat): nat {
    match pointer
    case None => 0
    case Some(i) => if i + 1 < n then i + 1 else 0
  }

  class NameServer {
    const head: ServerNode
    ghost const servers: seq<ServerNode>
    var rr: ServerNode?

    ghost predicate Valid()
      reads this, servers
    {
      Chain(head, servers) && (rr != null ==> rr in servers) && forall s | s in servers :: |s.hex| == 4
    }

    /** Where the pointer stands. */
    ghost function Pointer(): (p: Option<nat>)
      requires Valid()
      reads this, servers
      ensures p.None? <==> rr == null
      ensures p.Some? ==> p.value < |servers| && servers[p.value] == rr
    {
      if rr == null then None else Some(var i: nat :| i < |servers| && servers[i] == rr; i)
    }

    constructor (head: ServerNode, ghost servers: seq<ServerNode>)
      requires Chain(head, servers) && forall s | s in servers :: |s.hex| == 4
      ensures Valid() && Pointer() == None && this.servers == servers && this.head == head
    {
      this.head, this.servers := head, servers;
      rr := null;
    }

    /** `handle_dns_request` with the round-robin flag: `None` is the error packet, which leaves the pointer alone. */
    method HandleRequest(packet: seq<Byte>) returns (response: Option<seq<Byte>>)
      requires Valid()
      modifies this`rr
      ensures Valid() && response.Some? == Accepts(packet)
      ensures response.Some? <==> |packet| >= 12 && Decode(packet[12..]) == Some(SERVED)
      ensures Pointer() == if Accepts(packet) then Some(Next(old(Pointer()), |servers|)) else old(Pointer())
      ensures Accepts(packet) ==>
                |servers| > 0 && Pointer().Some? && response == Some(Response(servers[Pointer().value].hex))
    {
      hide Decode;
      AcceptsExactly(packet);
      if !Accepts(packet) {
        return None;
      }
      ghost var p := Pointer();
      if rr == null {
        rr := head;
      } else if rr.next == null {
        rr := head;
      } else {
        rr := rr.next;
      }
      ghost var i := Next(p, |servers|);
      assert rr == servers[i];
      assert Pointer() == Some(i);
      var buffer := new Byte[8192](_ => 0);
      var size := GenRespPkt(buffer, rr.hex);
      return Some(buffer[..size]);
    }

    /** A whole run of packets: the m-th answer is the address of server m modulo the number of servers, and the
        pointer ends where the run of values does. */
    method HandleAll(packets: seq<seq<Byte>>) returns (responses: seq<seq<Byte>>)
      requires Valid() && Pointer() == None
      modifies this`rr
      ensures Valid() && |servers| > 0 && Pointer() == PointerAfter(|servers|, packets)
      ensures |responses| == AcceptedCount(packets)
      ensures forall m | 0 <= m < |responses| :: responses[m] == Response(servers[m % |servers|].hex)
    {
      hide Accepts, Next, Response;
      responses := [];
      for i := 0 to |packets|
        invariant Valid() && |servers| > 0 && Pointer() == PointerAfter(|servers|, packets[..i])
        invariant |responses| == AcceptedCount(packets[..i])
        invariant forall m | 0 <= m < |responses| :: responses[m] == Response(servers[m % |servers|].hex)
      {
        ghost var seen := packets[..i + 1];
        assert seen[..i] == packets[..i] && seen[i] == packets[i];
        ServedInTurn(|servers|, seen);
        var response := HandleRequest(packets[i]);
        if response.Some? {
          responses := responses + [response.value];
        }
      }
      assert packets[..|packets|] == packets;
    }
  }

  // ----- runs

  function AcceptedCount(packets: seq<seq<Byte>>): nat {
    if packets == [] then 0
    else AcceptedCount(packets[..|packets| - 1]) + if Accepts(packets[|packets| - 1]) then 1 else 0
  }

  /** The pointer after a run of packets, from NULL. */
  function PointerAfter(n: nat, packets: seq<seq<Byte>>): Option<nat> {
    if packets == [] then None
    else
      var p := PointerAfter(n, packets[..|packets| - 1]);
      if Accepts(packets[|packets| - 1]) then Some(Next(p, n)) else p
  }

  /** The servers answered with, in order. */
  function Served(n: nat, packets: seq<seq<Byte>>): seq<nat> {
    if packets == [] then []
    else
      Served(n, packets[..|packets| - 1])
      + if Accepts(packets[|packets| - 1]) then [Next(PointerAfter(n, packets[..|packets| - 1]), n)] else []
  }

  lemma NextDivMod(m: nat, n: nat)
    requires n > 0
    ensures (m + 1) % n == if m % n == n - 1 then 0 else m % n + 1
    ensures (m + 1) / n == if m % n == n - 1 then m / n + 1 else m / n
  {
    var q, r := m / n, m % n;
    assert m == q * n + r;
    if r == n - 1 {
      assert m + 1 == (q + 1) * n;
      DivModIs(m + 1, n, q + 1, 0);
    } else {
      DivModIs(m + 1, n, q, r + 1);
    }
  }

  lemma DivModIs(m: nat, n: nat, q: nat, r: nat)
    requires m == q * n + r && r < n
    ensures m / n == q && m % n == r
  {
    var d := m / n - q;
    assert d * n == (m / n) * n - q * n;
    assert m == (m / n) * n + m % n;
    AwayFromZero(d, n);
  }

  lemma AwayFromZero(d: int, n: int)
    requires n > 0
    ensures (d >= 1 ==> d * n >= n) && (d <= -1 ==> d * n <= -n)
  {
  }

  /** The m-th accepted request is answered with server m mod n; rejected packets count for nothing. */
  lemma {:induction false} ServedInTurn(n: nat, packets: seq<seq<Byte>>)
    requires n > 0
    ensures |Served(n, packets)| == AcceptedCount(packets)
    ensures forall m | 0 <= m < AcceptedCount(packets) :: Served(n, packets)[m] == m % n
    ensures PointerAfter(n, packets)
            == if AcceptedCount(packets) == 0 then None else Some((AcceptedCount(packets) - 1) % n)
    decreases |packets|
  {
    if packets != [] {
      var init := packets[..|packets| - 1];
      ServedInTurn(n, init);
      var m := AcceptedCount(init);
      if m > 0 {
        NextDivMod(m - 1, n);
      } else {
        DivModIs(0, n, 0, 0);
      }
    }
  }

  /** How often server `j` occurs among the first `m` answers. */
  function TimesServed(served: seq<nat>, m: nat, j: nat): nat
    requires m <= |served|
  {
    if m == 0 then 0 else TimesServed(served, m - 1, j) + if served[m - 1] == j then 1 else 0
  }

  lemma {:induction false} TimesServedFormula(n: nat, served: seq<nat>, m: nat, j: nat)
    requires j < n && m <= |served| && forall i | 0 <= i < |served| :: served[i] == i % n
    ensures TimesServed(served, m, j) == m / n + if j < m % n then 1 else 0
  {
    if m == 0 {
      DivModIs(0, n, 0, 0);
    } else {
      TimesServedFormula(n, served, m - 1, j);
      NextDivMod(m - 1, n);
    }
  }

  lemma Window(n: nat, served: seq<nat>, m: nat, j: nat)
    requires j < n && m + n <= |served| && forall i | 0 <= i < |served| :: served[i] == i % n
    ensures TimesServed(served, m + n, j) == TimesServed(served, m, j) + 1
  {
    hide *;
    TimesServedFormula(n, served, m, j);
    TimesServedFormula(n, served, m + n, j);
    AddModulus(m, n);
  }

  lemma AddModulus(m: nat, n: nat)
    requires n > 0
    ensures (m + n) / n == m / n + 1 && (m + n) % n == m % n
  {
    assert m == (m / n) * n + m % n;
    DistributeOne(m / n, n);
    DivModIs(m + n, n, m / n + 1, m % n);
  }

  lemma DistributeOne(q: int, n: int)
    ensures (q + 1) * n == q * n + n
  {
  }

  lemma Balanced(n: nat, served: seq<nat>, m: nat, j: nat, k: nat)
    requires j < n && k < n && m <= |served| && forall i | 0 <= i < |served| :: served[i] == i % n
    ensures TimesServed(served, m, j) <= TimesServed(served, m, k) + 1
  {
    TimesServedFormula(n, served, m, j);
    TimesServedFormula(n, served, m, k);
  }

  /** Fairness. Over every run, any n consecutive accepted requests use each of the n servers exactly once, and
      no server is ever ahead of another by more than one answer. */
  lemma RoundRobinFair(n: nat, packets: seq<seq<Byte>>, m: nat, j: nat, k: nat)
    requires j < n && k < n && m <= AcceptedCount(packets)
    ensures |Served(n, packets)| == AcceptedCount(packets)
    ensures TimesServed(Served(n, packets), m, j) <= TimesServed(Served(n, packets), m, k) + 1
    ensures m + n <= AcceptedCount(packets) ==>
              TimesServed(Served(n, packets), m + n, j) == TimesServed(Served(n, packets), m, j) + 1
  {
    ServedInTurn(n, packets);
    Balanced(n, Served(n, packets), m, j, k);
    if m + n <= AcceptedCount(packets) {
      Window(n, Served(n, packets), m, j);
    }
  }
}
