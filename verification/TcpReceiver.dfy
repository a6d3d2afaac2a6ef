/** The receive half of `struct tcp_cb`: sequence space, in-order ring and out-of-order list. */
module TcpReceiver {
  import opened SeqSpace
  import opened ByteRings
  import opened PacketQueue
  import opened TcpSpec

  /** What became of a segment's text. */
  datatype Verdict = Duplicate | Outside | InOrder | Hole

  /** How segment text relates to the next expected byte and the window. */
  function Kind(r: Rx, pos: int, data: seq<byte>): Verdict {
    var t := Trim(r.RcvNxt(), r.RightEdge(), pos, data);
    if pos + |data| <= r.RcvNxt() then Duplicate
    else if t.data == [] then Outside
    else if t.pos == r.RcvNxt() then InOrder
    else Hole
  }

  /** Parked segments stay within one ring of the next expected position. */
  predicate Near(parked: seq<Parked>, next: int) {
    forall i :: 0 <= i < |parked| ==> next - RING <= parked[i].pos && parked[i].End() <= next + RING
  }

  /** Parked segments are in order, fit the window and compare exactly as sequence numbers. */
  predicate Drainable(r: Rx) {
    !r.eof && Near(r.ooo, r.RcvNxt()) && Disjoint(r.ooo, r.RightEdge()) && r.RcvNxt() <= r.RightEdge()
  }

  /** In-order text that fits the window can be appended and the list then drained. */
  lemma AppendedIsDrainable(r: Rx, data: seq<byte>)
    requires ReceiveInv(r) && !r.eof && |data| <= r.Window()
    ensures Drainable(r.(rcvd := r.rcvd + data))
  {
  }

  lemma OrderlyIsNear(r: Rx)
    requires ReceiveInv(r) && !r.eof
    ensures Near(r.ooo, r.RcvNxt())
  {
  }

  lemma DrainableOpen(r: Rx)
    requires Drainable(r)
    ensures !r.eof
  {
  }

  /** The first parked segment leaves no hole. */
  predicate Touches(r: Rx) { r.ooo != [] && r.ooo[0].pos <= 1 + |r.rcvd| }

  /** Take the first parked segment, or what is new in it. */
  function TakeFirst(r: Rx): Rx
    requires Touches(r)
  {
    r.(ooo := r.ooo[1..], rcvd := Taken(r.rcvd, r.ooo[0]))
  }

  lemma TakeFirstDrains(r: Rx)
    requires Drainable(r) && Touches(r)
    ensures Drainable(TakeFirst(r)) && Drain(TakeFirst(r).rcvd, TakeFirst(r).ooo) == Drain(r.rcvd, r.ooo)
    ensures TakeFirst(r) == r.(rcvd := TakeFirst(r).rcvd, ooo := r.ooo[1..])
  {
    hide Drain;
    DrainUnfolds(r.rcvd, r.ooo);
  }

  /** The linked list carries the parked segments, tagged with their sequence numbers. */
  ghost predicate Carries(nodes: seq<Packet>, irs: Word32, parked: seq<Parked>) {
    && |nodes| == |parked|
    && forall i :: 0 <= i < |nodes| ==> nodes[i].data == parked[i].data && nodes[i].tag == Wrap(irs + parked[i].pos)
  }

  lemma CarriesAsMany(nodes: seq<Packet>, irs: Word32, parked: seq<Parked>)
    requires Carries(nodes, irs, parked)
    ensures |nodes| == |parked|
  {
  }

  /** The tags of the list compare with a nearby sequence number as the positions do. */
  lemma TagsCompare(nodes: seq<Packet>, irs: Word32, parked: seq<Parked>, next: int, t: Parked)
    requires Carries(nodes, irs, parked) && Near(parked, next) && Near([t], next)
    ensures forall i :: 0 <= i < |nodes| ==> (SeqLt(nodes[i].tag, Wrap(irs + t.pos)) <==> parked[i].pos < t.pos)
  {
    assert [t][0] == t;
    forall i | 0 <= i < |nodes| ensures SeqLt(nodes[i].tag, Wrap(irs + t.pos)) <==> parked[i].pos < t.pos {
      Compare(irs, parked[i].pos, t.pos);
    }
  }

  lemma CarriesInserted(nodes: seq<Packet>, irs: Word32, parked: seq<Parked>, k: nat, q: Packet, t: Parked)
    requires Carries(nodes, irs, parked) && k <= |nodes| && q.data == t.data && q.tag == Wrap(irs + t.pos)
    ensures Carries(nodes[..k] + [q] + nodes[k..], irs, parked[..k] + [t] + parked[k..])
  {
  }

  class ReceiveHalf {
    var irs: Word32
    var nxt: Word32
    var eof: bool
    const ring: ByteRing
    const ooo: Queue
    /** The stream received so far, and whether its origin is known. */
    ghost var rx: Rx
    ghost var synced: bool

    /** The fields and buffers represent `rx`. */
    ghost predicate Represents()
      reads this, ring, ring.buf, ooo, ooo.nodes
    {
      && ring.Valid() && ooo.Valid()
      && (synced ==> nxt == Wrap(irs + rx.RcvNxt())) && eof == rx.eof
      && rx.read <= |rx.rcvd| && ring.contents == rx.rcvd[rx.read..]
      && Carries(ooo.nodes, irs, rx.ooo)
    }

    ghost predicate Valid()
      reads this, ring, ring.buf, ooo, ooo.nodes
    {
      Represents() && ReceiveInv(rx) && (!synced ==> rx == Rx([], 0, false, []))
    }

    constructor ()
      ensures Valid() && !synced && rx == Rx([], 0, false, [])
      ensures fresh(ring) && fresh(ring.buf) && fresh(ooo) && ooo.nodes == []
    {
      irs, nxt, eof, rx, synced := 0, 0, false, Rx([], 0, false, []), false;
      ring := new ByteRing();
      ooo := new Queue();
    }

    /** `tcp_rcv_window`. */
    function Window(): (w: nat)
      requires ring.Valid()
      reads this, ring, ring.buf
    {
      Min(RING - ring.len, 0xffff)
    }

    lemma Facts()
      requires Valid()
      ensures ring.Valid() && Window() == rx.Window() && (synced ==> nxt == Wrap(irs + rx.RcvNxt())) && eof == rx.eof
    {
    }

    /** The peer's SYN fixes the origin of the stream. */
    method Sync(seqno: Word32)
      requires Valid() && !synced
      modifies this
      ensures Valid() && synced && irs == seqno && rx == old(rx)
    {
      irs, nxt := seqno, Wrap(seqno + 1);
      synced := true;
    }

    /** `rcv_ring_put` of bytes that fit the window, so that all of them are taken. */
    method Append(data: seq<byte>)
      requires Represents() && synced && !eof && |data| <= rx.Window()
      modifies this`nxt, this`rx, ring, ring.buf
      ensures Represents() && rx == old(rx).(rcvd := old(rx).rcvd + data)
    {
      hide Wrap, Carries;
      var take := ring.Put(data);
      assert take == |data| && data[..take] == data;
      AddExact(irs, rx.RcvNxt(), take);
      nxt := Wrap(nxt + take);
      rx := rx.(rcvd := rx.rcvd + data);
    }

    /** Unlink the first parked segment. */
    method Unpark() returns (q: Packet)
      requires Represents() && ooo.nodes != []
      modifies this`rx, ooo, ooo.nodes
      ensures Represents() && q == old(ooo.nodes)[0] && ooo.nodes == old(ooo.nodes)[1..]
      ensures rx == old(rx).(ooo := old(rx).ooo[1..])
    {
      q := ooo.Pop();
      rx := rx.(ooo := rx.ooo[1..]);
    }

    /** One turn of `tcp_ooo_drain`; a parked segment always fits, so the ring-full exit is never taken. */
    method DrainOne() returns (more: bool)
      requires Represents() && synced && Drainable(rx) && ooo.nodes != []
      modifies this`nxt, this`rx, ring, ring.buf, ooo, ooo.nodes
      ensures Represents()
      ensures more == Touches(old(rx))
      ensures more ==> ooo.nodes == old(ooo.nodes)[1..] && rx == TakeFirst(old(rx))
      ensures !more ==> ooo.nodes == old(ooo.nodes) && rx == old(rx)
    {
      hide Wrap, SignedDiff;
      var q := ooo.head;
      ghost var first, next := rx.ooo[0], rx.RcvNxt();
      Compare(irs, first.pos, next);
      if SeqGt(q.tag, nxt) {
        return false;
      }
      q := Unpark();
      more := true;
      AddExact(irs, first.pos, |q.data|);
      Compare(irs, first.End(), next);
      if SeqLt(Wrap(q.tag + |q.data|), nxt) || Wrap(q.tag + |q.data|) == nxt {
        return;
      }
      SubExact(irs, next, first.pos);
      Append(q.data[Wrap(nxt - q.tag)..]);
    }

    /** `tcp_ooo_drain`. */
    method DrainAll()
      requires Represents() && synced && Drainable(rx)
      modifies this`nxt, this`rx, ring, ring.buf, ooo, ooo.nodes
      ensures Represents()
      ensures rx == old(rx).(rcvd := Drain(old(rx).rcvd, old(rx).ooo).0, ooo := Drain(old(rx).rcvd, old(rx).ooo).1)
      ensures forall x :: x in ooo.nodes ==> x in old(ooo.nodes)
    {
      hide Wrap, Carries, Drainable, Drain, TakeFirst, ByteRing.Valid;
      CarriesAsMany(ooo.nodes, irs, rx.ooo);
      DrainableOpen(rx);
      while ooo.head != null
        invariant Represents() && Drainable(rx) && |rx.ooo| == |ooo.nodes| && !rx.eof
        invariant rx == old(rx).(rcvd := rx.rcvd, ooo := rx.ooo)
        invariant Drain(rx.rcvd, rx.ooo) == Drain(old(rx).rcvd, old(rx).ooo)
        invariant |ooo.nodes| <= |old(ooo.nodes)| && ooo.nodes == old(ooo.nodes)[|old(ooo.nodes)| - |ooo.nodes|..]
        decreases |ooo.nodes|
      {
        ghost var r := rx;
        var more := DrainOne();
        if !more {
          break;
        }
        TakeFirstDrains(r);
        DrainableOpen(rx);
      }
      DrainUnfolds(rx.rcvd, rx.ooo);
    }

    /** The trimming steps of `tcp_rx_payload`: the part of the segment inside the window. */
    method TrimToWindow(seqno: Word32, data: seq<byte>, ghost pos: int) returns (start: Word32, text: seq<byte>,
                        v: Verdict)
      requires ring.Valid() && Window() == rx.Window() && nxt == Wrap(irs + rx.RcvNxt())
      requires seqno == Wrap(irs + pos) && 0 < |data| <= RING
      requires rx.RcvNxt() - 2 * RING <= pos <= rx.RcvNxt() + RING && 0 <= rx.Window()
      ensures var t := Trim(rx.RcvNxt(), rx.RightEdge(), pos, data);
        && text == t.data && (text != [] ==> start == Wrap(irs + t.pos))
        && v == (if pos + |data| <= rx.RcvNxt() then Duplicate
                 else if text == [] then Outside
                 else if t.pos == rx.RcvNxt() then InOrder
                 else Hole)
    {
      hide Wrap, SignedDiff;
      start := seqno;
      var off, len := 0, |data|;
      ghost var next, edge, p := rx.RcvNxt(), rx.RightEdge(), pos;
      Compare(irs, pos, next);
      if SeqLt(start, nxt) {
        SubExact(irs, next, pos);
        var skip := Wrap(nxt - start);
        if skip >= len {
          return start, [], Duplicate;
        }
        off, len := skip, len - skip;
        start, p := nxt, next;
      }
      AddExact(irs, next, Window());
      var wndEnd := Wrap(nxt + Window());
      Compare(irs, p, edge);
      if SeqGe(start, wndEnd) {
        return start, [], Outside;
      }
      AddExact(irs, p, len);
      Compare(irs, p + len, edge);
      if SeqGt(Wrap(start + len), wndEnd) {
        SubExact(irs, edge, p);
        len := Wrap(wndEnd - start);
      }
      text := data[off..off + len];
      Compare(irs, p, next);
      v := if start == nxt then InOrder else Hole;
    }

    /** The overlap test of `tcp_ooo_insert`. */
    method Overlaps(start: Word32, text: seq<byte>, ghost pos: int) returns (found: bool)
      requires ooo.Valid() && Carries(ooo.nodes, irs, rx.ooo) && Near(rx.ooo, rx.RcvNxt())
      requires start == Wrap(irs + pos) && Near([Parked(pos, text)], rx.RcvNxt())
      ensures found <==> exists x :: x in rx.ooo && Overlap(x, Parked(pos, text))
    {
      hide Wrap, SignedDiff;
      ghost var t := Parked(pos, text);
      assert t.pos == [t][0].pos;
      var q := ooo.head;
      ghost var i := 0;
      while q != null
        invariant 0 <= i <= |rx.ooo| && q == ooo.NodeAt(i)
        invariant forall j :: 0 <= j < i ==> !Overlap(rx.ooo[j], t)
        decreases |rx.ooo| - i
      {
        ghost var x := rx.ooo[i];
        AddExact(irs, x.pos, |q.data|);
        AddExact(irs, pos, |text|);
        Compare(irs, pos, x.End());
        Compare(irs, x.pos, t.End());
        if SeqLt(start, Wrap(q.tag + |q.data|)) && SeqLt(q.tag, Wrap(start + |text|)) {
          assert x in rx.ooo;
          return true;
        }
        q := q.next;
        i := i + 1;
      }
      return false;
    }

    /** The tail of `tcp_ooo_insert`: allocate a packet and link it in order. */
    method Link(start: Word32, text: seq<byte>, ghost pos: int)
      requires Represents() && Near(rx.ooo, rx.RcvNxt())
      requires start == Wrap(irs + pos) && Near([Parked(pos, text)], rx.RcvNxt())
      modifies this`rx, ooo, ooo.nodes
      ensures Represents() && rx == old(rx).(ooo := InsertParked(old(rx).ooo, Parked(pos, text)))
      ensures forall x :: x in ooo.nodes ==> x in old(ooo.nodes) || fresh(x)
    {
      hide Wrap, SeqLt, Carries, Near, InsertParked, ByteRing.Valid, Queue.Valid;
      ghost var t := Parked(pos, text);
      CarriesAsMany(ooo.nodes, irs, rx.ooo);
      TagsCompare(ooo.nodes, irs, rx.ooo, rx.RcvNxt(), t);
      var q := new Packet(start, text);
      var k := ooo.InsertOrdered(q);
      InsertParkedAt(rx.ooo, t, k);
      CarriesInserted(old(ooo.nodes), irs, rx.ooo, k, q, t);
      rx := rx.(ooo := rx.ooo[..k] + [t] + rx.ooo[k..]);
    }

    /** `tcp_ooo_insert`. */
    method Insert(start: Word32, text: seq<byte>, ghost pos: int)
      requires Valid() && synced && !eof && start == Wrap(irs + pos)
      requires rx.RcvNxt() < pos && text != [] && pos + |text| <= rx.RightEdge()
      modifies this`rx, ooo, ooo.nodes
      ensures Represents() && rx == old(rx).(ooo := Park(old(rx).ooo, Parked(pos, text)))
      ensures forall x :: x in ooo.nodes ==> x in old(ooo.nodes) || fresh(x)
    {
      hide Wrap, SeqLt, Carries, InsertParked, Orderly, ByteRing.Valid;
      OrderlyIsNear(rx);
      CarriesAsMany(ooo.nodes, irs, rx.ooo);
      if ooo.n >= OOO_MAX {
        return;
      }
      var found := Overlaps(start, text, pos);
      if !found {
        Link(start, text, pos);
      }
    }

    /** In-order text: into the ring, then the parked segments it makes contiguous. */
    method Accept(text: seq<byte>)
      requires Valid() && synced && !eof && |text| <= rx.Window()
      modifies this`nxt, this`rx, ring, ring.buf, ooo, ooo.nodes
      ensures Represents()
      ensures var (rcvd, parked) := Drain(old(rx).rcvd + text, old(rx).ooo);
        rx == old(rx).(rcvd := rcvd, ooo := parked)
      ensures forall x :: x in ooo.nodes ==> x in old(ooo.nodes)
    {
      hide Wrap, Carries, Orderly, ByteRing.Valid, Queue.Valid, Drain, Drainable;
      AppendedIsDrainable(rx, text);
      Append(text);
      DrainAll();
    }

    /** `tcp_rx_payload`, up to its choice of acknowledgment. */
    method Payload(seqno: Word32, data: seq<byte>, ghost pos: int) returns (v: Verdict)
      requires Valid() && synced && !eof && seqno == Wrap(irs + pos) && 0 < |data| <= RING
      requires rx.RcvNxt() - 2 * RING <= pos <= rx.RcvNxt() + RING
      modifies this`nxt, this`rx, ring, ring.buf, ooo, ooo.nodes
      ensures Valid() && rx == Receive(old(rx), pos, data)
      ensures forall x :: x in ooo.nodes ==> x in old(ooo.nodes) || fresh(x)
      ensures v == Kind(old(rx), pos, data)
    {
      hide Wrap, SeqLt, Carries, Orderly, ByteRing.Valid, Queue.Valid, Drain, Park, Trim;
      ReceiveKeepsInv(rx, pos, data);
      var start, text: seq<byte>;
      start, text, v := TrimToWindow(seqno, data, pos);
      ghost var t := Trim(rx.RcvNxt(), rx.RightEdge(), pos, data);
      if v == InOrder {
        Accept(text);
      } else if v == Hole {
        Insert(start, text, t.pos);
      }
    }

    /** A FIN at the next expected position. */
    method TakeFin()
      requires Valid() && synced && !eof
      modifies this`nxt, this`eof, this`rx
      ensures Valid() && rx == old(rx).(eof := true)
    {
      hide Wrap, Carries;
      AddExact(irs, rx.RcvNxt(), 1);
      nxt, eof := Wrap(nxt + 1), true;
      rx := rx.(eof := true);
    }

    /** The ring read of `pf_recv`. */
    method Read(cap: nat) returns (bytes: seq<byte>)
      requires Valid()
      modifies this`rx, ring
      ensures Valid() && |bytes| == Min(cap % MODULUS, |old(rx).Unread()|)
      ensures bytes == old(rx).rcvd[old(rx).read..old(rx).read + |bytes|]
      ensures rx == old(rx).(read := old(rx).read + |bytes|)
    {
      hide Wrap, Carries;
      var n := Min(cap % MODULUS, ring.len);
      bytes := ring.CopyOut(0, n);
      ring.Drop(n);
      rx := rx.(read := rx.read + n);
    }
  }
}
