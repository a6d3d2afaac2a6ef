/** The intrusive singly-linked packet FIFO (src/core/pkt.c) and the ordered insert of src/tcp/tcp.c. */
module PacketQueue {
  import opened SeqSpace

  class Packet {
    var next: Packet?
    const tag: Word32
    const data: seq<byte>

    constructor (tag: Word32, data: seq<byte>)
      ensures this.tag == tag && this.data == data && next == null
    {
      this.tag, this.data, next := tag, data, null;
    }
  }

  class Queue {
    var head: Packet?
    var tail: Packet?
    var n: nat
    /** The linked packets in order. */
    ghost var nodes: seq<Packet>

    ghost predicate Valid()
      reads this, nodes
    {
      && n == |nodes|
      && head == NodeAt(0)
      && tail == NodeAt(|nodes| - 1)
      && (forall i {:trigger nodes[i].next} :: 0 <= i < |nodes| ==> nodes[i].next == NodeAt(i + 1))
      && (forall i, j :: 0 <= i < j < |nodes| ==> nodes[i] != nodes[j])
    }

    ghost function NodeAt(i: int): Packet?
      reads this
    {
      if 0 <= i < |nodes| then nodes[i] else null
    }

    constructor ()
      ensures Valid() && nodes == []
    {
      head, tail, n, nodes := null, null, 0, [];
    }

    method Push(p: Packet)
      requires Valid() && p !in nodes
      modifies this, p, nodes
      ensures Valid() && nodes == old(nodes) + [p]
    {
      p.next := null;
      if tail != null {
        tail.next := p;
      } else {
        head := p;
      }
      tail := p;
      n := n + 1;
      nodes := nodes + [p];
    }

    method Pop() returns (p: Packet?)
      requires Valid()
      modifies this, nodes
      ensures Valid()
      ensures p == null <==> old(nodes) == []
      ensures p == null ==> nodes == []
      ensures p != null ==> p == old(nodes)[0] && nodes == old(nodes)[1..] && p.next == null
    {
      p := head;
      if p == null {
        return;
      }
      head := p.next;
      if head == null {
        tail := null;
      }
      p.next := null;
      n := n - 1;
      nodes := nodes[1..];
    }

    method FreeAll()
      requires Valid()
      modifies this, nodes
      ensures Valid() && nodes == []
    {
      var p := Pop();
      while p != null
        invariant Valid() && (p == null ==> nodes == [])
        invariant |nodes| <= |old(nodes)| && nodes == old(nodes)[|old(nodes)| - |nodes|..]
        decreases |nodes|, p != null
      {
        p := Pop();
      }
    }

    /** The sorted insert of `tcp_ooo_insert`: before the first packet whose tag is not below `q`'s. */
    method InsertOrdered(q: Packet) returns (k: nat)
      requires Valid() && q !in nodes
      modifies this, q, nodes
      ensures Valid()
      ensures k <= |old(nodes)| && nodes == old(nodes)[..k] + [q] + old(nodes)[k..]
      ensures forall i :: 0 <= i < k ==> SeqLt(old(nodes)[i].tag, q.tag)
      ensures k < |old(nodes)| ==> !SeqLt(old(nodes)[k].tag, q.tag)
    {
      var prev: Packet? := null;
      var cur := head;
      k := 0;
      while cur != null && SeqLt(cur.tag, q.tag)
        invariant k <= |nodes| && cur == NodeAt(k) && prev == NodeAt(k - 1)
        invariant forall i :: 0 <= i < k ==> SeqLt(nodes[i].tag, q.tag)
        decreases |nodes| - k
      {
        prev := cur;
        cur := cur.next;
        k := k + 1;
      }
      Link(prev, cur, q, k);
    }

    /** Splice `q` between two neighbours: `q->next = *pp; *pp = q`. */
    method Link(prev: Packet?, cur: Packet?, q: Packet, ghost k: nat)
      requires Valid() && q !in nodes && k <= |nodes| && cur == NodeAt(k) && prev == NodeAt(k - 1)
      modifies this, q, nodes
      ensures Valid() && nodes == old(nodes)[..k] + [q] + old(nodes)[k..]
    {
      ghost var was := nodes;
      q.next := cur;
      if prev == null {
        head := q;
      } else {
        prev.next := q;
      }
      if q.next == null {
        tail := q;
      }
      n := n + 1;
      nodes := nodes[..k] + [q] + nodes[k..];
      assert forall i :: 0 <= i < k ==> nodes[i] == was[i];
      assert forall i :: k < i < |nodes| ==> nodes[i] == was[i - 1];
    }
  }
}
