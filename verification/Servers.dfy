/** The server list of the name server (`server_list_t`, src/nameserver.h): a linked list in file order. */
module Servers {
  import opened Text
  import opened Wire

  class ServerNode {
    const sname: string
    const hex: seq<Byte>
    var next: ServerNode?

    constructor (sname: string, hex: seq<Byte>)
      ensures this.sname == sname && this.hex == hex && next == null
    {
      this.sname := sname;
      this.hex := hex;
      next := null;
    }
  }

  /** `nodes` is the list that starts at `head`. */
  ghost predicate Chain(head: ServerNode?, nodes: seq<ServerNode>)
    reads nodes
  {
    && head == (if nodes == [] then null else nodes[0])
    && (forall i {:trigger nodes[i].next} | 0 <= i < |nodes| ::
          nodes[i].next == if i + 1 < |nodes| then nodes[i + 1] else null)
    && forall i, j | 0 <= i < j < |nodes| :: nodes[i] != nodes[j]
  }

  ghost function Names(nodes: seq<ServerNode>): (r: seq<string>)
    ensures |r| == |nodes| && forall i | 0 <= i < |r| :: r[i] == nodes[i].sname
  {
    seq(|nodes|, i requires 0 <= i < |nodes| => nodes[i].sname)
  }

  /** The byte that `translate_ip_to_hex` stores for one part of an address. */
  function HexByte(sname: string, i: nat): Byte
    requires i < |Fields(sname, {'.'})|
  {
    Atoi(Fields(sname, {'.'})[i]) % 256
  }

  /** The walk to the end of the list and the link to the new node. */
  method AppendNode(head: ServerNode?, ghost nodes: seq<ServerNode>, node: ServerNode) returns (newHead: ServerNode?)
    requires Chain(head, nodes) && node !in nodes && node.next == null
    modifies nodes
    ensures Chain(newHead, nodes + [node])
  {
    if head == null {
      return node;
    }
    var last: ServerNode := head;
    ghost var k := 0;
    while last.next != null
      invariant k < |nodes| && last == nodes[k]
      decreases |nodes| - k
    {
      last := last.next;
      k := k + 1;
    }
    last.next := node;
    newHead := head;
  }

  /** `get_servers`: one node per line, in file order; lines must be shorter than the name field. */
  method GetServers(lines: seq<string>) returns (head: ServerNode?, ghost nodes: seq<ServerNode>)
    requires forall l | l in lines :: |l| < 15
    ensures Chain(head, nodes) && fresh(nodes) && Names(nodes) == lines
    ensures forall n | n in nodes :: |n.hex| == 4
    ensures forall n, i | n in nodes && 0 <= i < 4 && i < |Fields(n.sname, {'.'})| :: n.hex[i] == HexByte(n.sname, i)
  {
    head, nodes := null, [];
    for k := 0 to |lines|
      invariant Chain(head, nodes) && fresh(nodes) && Names(nodes) == lines[..k]
      invariant forall n | n in nodes :: |n.hex| == 4
      invariant forall n, i | n in nodes && 0 <= i < 4 && i < |Fields(n.sname, {'.'})| :: n.hex[i] == HexByte(n.sname, i)
    {
      var hex := new Byte[4];
      TranslateIp(lines[k], hex);
      var node := new ServerNode(lines[k], hex[..]);
      head := AppendNode(head, nodes, node);
      nodes := nodes + [node];
      assert lines[..k + 1] == lines[..k] + [lines[k]];
    }
    assert lines[..|lines|] == lines;
  }
}
