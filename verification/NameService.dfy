/** The name server as a whole (src/nameserver.c): from the lines of the servers file to the address in the answer,
    round robin or nearest. */
module NameService {
  import opened Text
  import opened Walks
  import opened Topology
  import opened Generator
  import opened Wire
  import opened Servers
  import opened Selection
  import opened RoundRobin
  import opened EndToEnd

  datatype Ip = Ip(a: Byte, b: Byte, c: Byte, d: Byte)

  function Bytes(ip: Ip): seq<Byte> {
    [ip.a, ip.b, ip.c, ip.d]
  }

  function Dots(ip: Ip): string {
    Quad(ip.a, ip.b, ip.c, ip.d)
  }

  /** The lines as `getline` returns them: dotted quads that fit their field, with a newline but perhaps for the last. */
  ghost predicate ServersFile(lines: seq<string>, ips: seq<Ip>) {
    && |lines| == |ips|
    && forall i | 0 <= i < |lines| :: |lines[i]| < 15 && (lines[i] == Dots(ips[i]) + "\n" || lines[i] == Dots(ips[i]) + "")
  }

  /** The bytes that `get_servers` stores for such a line. */
  lemma HexIsAddress(node: ServerNode, ip: Ip, end: string)
    requires (end == "" || end == "\n") && node.sname == Dots(ip) + end && |node.hex| == 4
    requires forall i | 0 <= i < 4 && i < |Fields(node.sname, {'.'})| :: node.hex[i] == HexByte(node.sname, i)
    ensures node.hex == Bytes(ip)
  {
    hide Fields, Atoi, Itoa, Quad;
    QuadFields(ip.a, ip.b, ip.c, ip.d, end);
    assert node.hex == [node.hex[0], node.hex[1], node.hex[2], node.hex[3]];
  }

  lemma ServerAddresses(lines: seq<string>, ips: seq<Ip>, nodes: seq<ServerNode>)
    requires ServersFile(lines, ips) && Names(nodes) == lines
    requires forall n | n in nodes :: |n.hex| == 4
    requires forall n, i | n in nodes && 0 <= i < 4 && i < |Fields(n.sname, {'.'})| :: n.hex[i] == HexByte(n.sname, i)
    ensures forall k | 0 <= k < |nodes| :: nodes[k].hex == Bytes(ips[k])
  {
    hide Fields, HexByte, Dots;
    forall k | 0 <= k < |nodes|
      ensures nodes[k].hex == Bytes(ips[k])
    {
      assert nodes[k] in nodes && nodes[k].sname == lines[k];
      HexIsAddress(nodes[k], ips[k], if lines[k] == Dots(ips[k]) + "\n" then "\n" else "");
    }
  }

  /** Round robin, from the servers file: the m-th request that is accepted is answered with the address on line m
      modulo the number of lines. */
  method AnswerInTurn(lines: seq<string>, ghost ips: seq<Ip>, packets: seq<seq<Byte>>) returns (responses: seq<seq<Byte>>)
    requires ServersFile(lines, ips) && lines != []
    ensures |responses| == AcceptedCount(packets)
    ensures forall m | 0 <= m < |responses| :: FirstAddress(responses[m]) == Some(Bytes(ips[m % |ips|]))
  {
    hide ServersFile, FirstAddress, Response, HexByte, AcceptedCount, PointerAfter;
    ShortLines(lines, ips);
    var head, nodes := GetServers(lines);
    ServerAddresses(lines, ips, nodes);
    var server := new NameServer(head, nodes);
    responses := server.HandleAll(packets);
    forall m | 0 <= m < |responses|
      ensures FirstAddress(responses[m]) == Some(Bytes(ips[m % |ips|]))
    {
      ResponseRoundTrip(nodes[m % |nodes|].hex);
    }
  }

  lemma ShortLines(lines: seq<string>, ips: seq<Ip>)
    requires ServersFile(lines, ips)
    ensures |lines| == |ips| && forall l | l in lines :: |l| < 15
  {
  }

  /** Nearest, from the servers file and the generator's text: an accepted request is answered with the address of a
      server that sits nearest to the node at index 0, over what the nodes heard announce. `None` is the error packet of a
      request that is not accepted, or the NULL of a lookup that finds no server. */
  method AnswerNearest(lines: seq<string>, ghost ips: seq<Ip>, text: string, ghost links: Links, ghost sink: Name,
                       ghost rounds: nat, ghost heard: (nat, nat) -> bool, client: string, packet: seq<Byte>)
    returns (response: Option<seq<Byte>>)
    requires ServersFile(lines, ips)
    requires GoodTopology(links, sink) && HeardNodes(links, sink, rounds, heard) != {}
    requires text == AllText(links, sink, rounds, heard) && NoFalsePrefix(HeardNodes(links, sink, rounds, heard), lines)
    ensures var db, known := DatabaseOf(links, sink, rounds, heard), HeardNodes(links, sink, rounds, heard);
      && db != []
      && (response.None? ==> !Accepts(packet) || NoneNear(Restricted(links, known), known, lines, db[0].sender))
      && (response.Some? ==>
            && Accepts(packet)
            && exists k :: NearestByHops(Restricted(links, known), known, lines, db[0].sender, k) && 0 <= k < |ips|
                           && FirstAddress(response.value) == Some(Bytes(ips[k])))
  {
    hide ServersFile, FirstAddress, Response, HexByte, HeardNodes, DatabaseOf, NoFalsePrefix, NoneNear, Restricted, Accepts;
    if !Accepts(packet) {
      SendersAreHeard(links, sink, rounds, heard);
      return None;
    }
    ShortLines(lines, ips);
    var head, nodes := GetServers(lines);
    ServerAddresses(lines, ips, nodes);
    var server := Resolve(text, links, sink, rounds, heard, client, head, nodes);
    if server == null {
      return None;
    }
    ghost var k :| 0 <= k < |nodes| && server == nodes[k]
                   && NearestByHops(Restricted(links, HeardNodes(links, sink, rounds, heard)),
                                    HeardNodes(links, sink, rounds, heard), lines,
                                    DatabaseOf(links, sink, rounds, heard)[0].sender, k);
    var buffer := new Byte[8192](_ => 0);
    var size := GenRespPkt(buffer, server.hex);
    response := Some(buffer[..size]);
    ResponseRoundTrip(server.hex);
  }

  /** From the link file and the servers file to the address in the packet. When everyone is heard, and the sink too unless it
      is bypassed, an accepted request is answered with the address of a server that sits nearest, by hops in the links of
      the file, to the node at index 0. */
  method AnswerFromTopology(linkLines: seq<seq<string>>, sink: Name, rounds: nat, heard: (nat, nat) -> bool,
                            lines: seq<string>, ghost ips: seq<Ip>, client: string, packet: seq<Byte>)
    returns (response: Option<seq<Byte>>)
    requires LinesComplete(linkLines) && sink in Named(linkLines) && ServersFile(lines, ips)
    requires var links := LinksOf(linkLines);
      && NamesPrintable(links) && EveryoneHeard(links, sink, rounds, heard)
      && HeardNodes(links, sink, rounds, heard) != {}
      && (sink in HeardNodes(links, sink, rounds, heard) || Bypassed(links, sink))
      && NoFalsePrefix(HeardNodes(links, sink, rounds, heard), lines)
    ensures var links := LinksOf(linkLines);
      var known, db := HeardNodes(links, sink, rounds, heard), DatabaseOf(links, sink, rounds, heard);
      && db != []
      && (response.None? ==> !Accepts(packet) || NoneNear(links, known, lines, db[0].sender))
      && (response.Some? ==>
            && Accepts(packet)
            && exists k :: NearestByHops(links, known, lines, db[0].sender, k) && 0 <= k < |ips|
                           && FirstAddress(response.value) == Some(Bytes(ips[k])))
  {
    hide ServersFile, FirstAddress, HeardAt, NearestByHops, NoneNear, NoFalsePrefix, Restricted, DatabaseOf, Bypassed,
      EveryoneHeard, Accepts;
    var text, links := Generate(linkLines, sink, rounds, heard);
    TopologyWellFormed(linkLines, links);
    assert rounds > 0;
    response := AnswerNearest(lines, ips, text.value, links, sink, rounds, heard, client, packet);
    AnswerOverLinks(links, sink, rounds, heard, lines);
  }
}
