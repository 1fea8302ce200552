/** The linked lists in which packets wait, with the memory they live in: who walks them, who frees them,
    and which pointers are left pointing at freed nodes. */
module PacketLists {
  /** A packet handed over for an address; `id` tells packets apart. */
  datatype Packet = Packet(id: nat, lsu: bool)

  /** A node of a list; `freed` once it was given back to the allocator, after which it must not be read. */
  class Node {
    const packet: Packet
    var next: Node?
    var freed: bool

    constructor (packet: Packet, next: Node?)
      ensures this.packet == packet && this.next == next && !freed
    {
      this.packet := packet;
      this.next := next;
      this.freed := false;
    }
  }

  function NodeAt(nodes: seq<Node>, i: nat, tail: Node?): Node? {
    if i < |nodes| then nodes[i] else tail
  }

  /** From `head` on the list has these live nodes, and goes on with `tail`. */
  ghost predicate Linked(head: Node?, nodes: seq<Node>, tail: Node?)
    reads nodes
  {
    && head == NodeAt(nodes, 0, tail)
    && (forall i | 0 <= i < |nodes| :: nodes[i].next == NodeAt(nodes, i + 1, tail) && !nodes[i].freed)
    && (forall i, j | 0 <= i < j < |nodes| :: nodes[i] != nodes[j])
  }

  function Packets(nodes: seq<Node>): (r: seq<Packet>)
    ensures |r| == |nodes| && forall i | 0 <= i < |nodes| :: r[i] == nodes[i].packet
  {
    seq(|nodes|, i requires 0 <= i < |nodes| => nodes[i].packet)
  }

  /** The pointer is left over from a list that was freed. */
  predicate Dangling(head: Node?)
    reads head
  {
    head != null && head.freed
  }

  /** add_to_pack_buff: walks to the last node and appends there. Not `ok` when the first node it reads was
      freed already; what the code does then is undefined. */
  method AddToPackBuff(buff: Node?, p: Packet, ghost nodes: seq<Node>)
    returns (head: Node?, ok: bool, ghost more: seq<Node>)
    requires Linked(buff, nodes, null) || (nodes == [] && Dangling(buff))
    modifies (set n | n in nodes)`next
    ensures ok <==> !old(Dangling(buff))
    ensures ok ==> Linked(head, nodes + more, null) && Packets(nodes + more) == Packets(nodes) + [p]
    ensures ok ==> |more| == 1 && fresh(more[0]) && (nodes != [] ==> head == buff)
    ensures !ok ==> head == buff && more == []
  {
    if buff == null {
      var first := new Node(p, null);
      return first, true, [first];
    }
    if buff.freed {
      return buff, false, [];
    }
    var walker := buff;
    ghost var i := 0;
    while walker.next != null
      invariant 0 <= i < |nodes| && walker == nodes[i] && !walker.freed
      decreases |nodes| - i
    {
      walker := walker.next;
      i := i + 1;
    }
    var last := new Node(p, null);
    walker.next := last;
    return buff, true, [last];
  }

  /** add_to_lsu_buff: puts a node in front, without reading the list behind it. */
  method AddToLsuBuff(buff: Node?, p: Packet, ghost nodes: seq<Node>, ghost tail: Node?) returns (head: Node)
    requires Linked(buff, nodes, tail)
    ensures fresh(head) && Linked(head, [head] + nodes, tail) && Packets([head] + nodes) == [p] + Packets(nodes)
  {
    if buff == null {
      head := new Node(p, null);
    } else {
      head := new Node(p, buff);
    }
  }

  /** The loop of send_all_packs, send_all_lsus, send_all_icmps and delete_all_lsu: deals with every packet in
      turn, reading each node once while it is live and freeing it once. The caller's pointer stays. */
  method TakeAll(buff: Node?, ghost nodes: seq<Node>) returns (taken: seq<Packet>)
    requires Linked(buff, nodes, null)
    modifies (set n | n in nodes)`freed
    ensures taken == Packets(nodes) && forall n | n in nodes :: n.freed
  {
    taken := [];
    var walker := buff;
    ghost var i := 0;
    while walker != null
      invariant 0 <= i <= |nodes| && walker == NodeAt(nodes, i, null) && taken == Packets(nodes)[..i]
      invariant forall j | 0 <= j < |nodes| :: nodes[j].freed == (j < i)
      decreases |nodes| - i
    {
      assert !walker.freed;
      taken := taken + [walker.packet];
      var prev := walker;
      walker := walker.next;
      prev.freed := true;
      i := i + 1;
    }
  }
}
