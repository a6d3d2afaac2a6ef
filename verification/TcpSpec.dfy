/**
 * One TCP connection over unbounded stream positions: the specification that the control block of
 * src/tcp is proved against. Position 0 is the SYN, position 1 + i is byte i of the stream and the
 * position after the last byte is the FIN.
 */
module TcpSpec {
  import opened SeqSpace
  import opened ByteRings

  /** TCP_OOO_MAX and TCP_MAX_RTX. */
  const OOO_MAX: nat := 16
  const MAX_RTX: nat := 10

  datatype State =
    | Closed | SynSent | SynRcvd | Established | FinWait1 | FinWait2 | CloseWait | Closing | LastAck | TimeWait

  /** A segment as it appears on the wire; `mss` is the option found in it, 0 when absent. */
  datatype Segment = Segment(
    seqno: Word32, ackno: Word32, wnd: nat, syn: bool, acks: bool, fin: bool, rst: bool, mss: nat, data: seq<byte>)
  {
    /** SEG.LEN: payload plus one position for each of SYN and FIN. */
    function SeqLen(): nat { |data| + (if syn then 1 else 0) + (if fin then 1 else 0) }
  }

  /** A transmitted segment with the stream positions its two sequence numbers stood for. */
  datatype Sent = Sent(seg: Segment, pos: nat, ackPos: nat)

  /** A parked out-of-order segment. */
  datatype Parked = Parked(pos: int, data: seq<byte>) {
    function End(): int { pos + |data| }
  }

  /** The outgoing stream: every byte accepted from the application, acknowledged and sent positions. */
  datatype Tx = Tx(written: seq<byte>, una: nat, nxt: nat, closed: bool, closedFirst: bool, finSent: bool) {
    /** Bytes held in the send ring. */
    function Unacked(): seq<byte> { if 1 <= una <= |written| then written[una - 1..] else [] }

    predicate FinAcked() { finSent && una == nxt }
  }

  /** The incoming stream: the in-order bytes, how many the application has taken, and the peer's FIN. */
  datatype Rx = Rx(rcvd: seq<byte>, read: nat, eof: bool, ooo: seq<Parked>) {
    function RcvNxt(): nat { 1 + |rcvd| + (if eof then 1 else 0) }

    /** The receive window: the free part of the receive ring. */
    function Window(): int { RING - (|rcvd| - read) }

    /** The first position the peer must not send. */
    function RightEdge(): int { RcvNxt() + Window() }

    /** Bytes held in the receive ring. */
    function Unread(): seq<byte> { if read <= |rcvd| then rcvd[read..] else [] }
  }

  /** What sending is governed by: congestion state, segment size, last window update, and whether Nagle is off. */
  datatype Flow = Flow(ssthresh: Word32, dupacks: Word32, mss: nat, wl1: Word32, wl2: Word32, nodelay: bool)

  /** RFC 6298: smoothed round trip, its variation and the timeout; and the text being timed, up to `upTo`. */
  datatype Rtt = Rtt(srtt: int, rttvar: int, rto: nat, timing: bool, upTo: nat, since: nat)

  /** The acknowledgment owed: in-order segments since the last, when it is due (0 for never), the window last told. */
  datatype Owed = Owed(count: nat, due: nat, told: nat)

  /**
   * Windows; the retransmission timer: deadline (0 when off), expiries since progress and in all; what they are
   * computed from; the delayed acknowledgment; and the end of TIME-WAIT.
   */
  datatype Pace = Pace(
    sndWnd: nat, cwnd: Word32, rtoAt: nat, rtx: nat, fires: nat, flow: Flow, rtt: Rtt, owed: Owed, waitUntil: nat)

  /** A connection, with every segment it has transmitted. */
  datatype Conn = Conn(st: State, iss: Word32, irs: Word32, synced: bool, tx: Tx, rx: Rx, pace: Pace, sent: seq<Sent>)

  // ---------------------------------------------------------------- receiving

  /** The stream with what is new in a parked segment that touches it. */
  function Taken(rcvd: seq<byte>, x: Parked): (r: seq<byte>)
    requires x.pos <= 1 + |rcvd|
    ensures rcvd <= r && x.End() <= 1 + |r|
  {
    if x.End() <= 1 + |rcvd| then rcvd else rcvd + x.data[1 + |rcvd| - x.pos..]
  }

  /** `tcp_ooo_drain`: take parked segments while the first one does not leave a hole. */
  function Drain(rcvd: seq<byte>, ooo: seq<Parked>): (r: (seq<byte>, seq<Parked>))
    decreases |ooo|
  {
    if ooo == [] || ooo[0].pos > 1 + |rcvd| then (rcvd, ooo) else Drain(Taken(rcvd, ooo[0]), ooo[1..])
  }

  lemma {:induction false} DrainUnfolds(rcvd: seq<byte>, ooo: seq<Parked>)
    ensures if ooo == [] || ooo[0].pos > 1 + |rcvd| then Drain(rcvd, ooo) == (rcvd, ooo)
      else Drain(rcvd, ooo) == Drain(Taken(rcvd, ooo[0]), ooo[1..])
  {
  }

  predicate Overlap(p: Parked, q: Parked) { p.pos < q.End() && q.pos < p.End() }

  function InsertParked(ooo: seq<Parked>, q: Parked): (r: seq<Parked>)
    decreases |ooo|
    ensures |r| == |ooo| + 1
    ensures forall x :: x in r <==> x == q || x in ooo
  {
    if ooo == [] || ooo[0].pos >= q.pos then [q] + ooo else [ooo[0]] + InsertParked(ooo[1..], q)
  }

  /** The ordered insert puts the new segment before the first one that does not start below it. */
  lemma {:induction false} InsertParkedAt(ooo: seq<Parked>, q: Parked, k: nat)
    requires k <= |ooo| && (forall i :: 0 <= i < k ==> ooo[i].pos < q.pos) && (k < |ooo| ==> ooo[k].pos >= q.pos)
    ensures InsertParked(ooo, q) == ooo[..k] + [q] + ooo[k..]
    decreases |ooo|
  {
    if k > 0 {
      InsertParkedAt(ooo[1..], q, k - 1);
      assert ooo[..k] == [ooo[0]] + ooo[1..][..k - 1];
    }
  }

  /** `tcp_ooo_insert`: a full list or any overlap declines the segment. */
  function Park(ooo: seq<Parked>, q: Parked): seq<Parked> {
    if |ooo| >= OOO_MAX || (exists x :: x in ooo && Overlap(x, q)) then ooo else InsertParked(ooo, q)
  }

  /** The part of a segment at `pos` inside [next, edge). */
  function Trim(next: int, edge: int, pos: int, data: seq<byte>): (r: Parked)
    ensures r.data != [] ==> next <= r.pos && r.End() <= edge && pos <= r.pos && r.End() <= pos + |data|
    ensures r.data != [] ==> r.data == data[r.pos - pos..r.End() - pos]
  {
    var lo := Max(next, pos);
    var hi := Min(edge, pos + |data|);
    if lo < hi then Parked(lo, data[lo - pos..hi - pos]) else Parked(lo, [])
  }

  /** `tcp_rx_payload`: the new receive stream and parked list. */
  function Receive(r: Rx, pos: int, data: seq<byte>): Rx {
    var t := Trim(r.RcvNxt(), r.RightEdge(), pos, data);
    if t.data == [] then r
    else if t.pos == r.RcvNxt() then
      var (rcvd, ooo) := Drain(r.rcvd + t.data, r.ooo);
      r.(rcvd := rcvd, ooo := ooo)
    else r.(ooo := Park(r.ooo, t))
  }

  /** Sorted, disjoint, non-empty, strictly above `next` and below `edge`. */
  predicate Orderly(ooo: seq<Parked>, next: int, edge: int) {
    && (forall i :: 0 <= i < |ooo| ==> ooo[i].data != [] && next < ooo[i].pos && ooo[i].End() <= edge)
    && (forall i, j :: 0 <= i < j < |ooo| ==> ooo[i].End() <= ooo[j].pos)
  }

  predicate Slice(p: Parked, stream: seq<byte>) {
    1 <= p.pos && p.End() <= 1 + |stream| && p.data == stream[p.pos - 1..p.End() - 1]
  }

  /** Everything held by the receiver agrees with `stream`. */
  predicate Agrees(rcvd: seq<byte>, ooo: seq<Parked>, stream: seq<byte>) {
    rcvd <= stream && forall i :: 0 <= i < |ooo| ==> Slice(ooo[i], stream)
  }

  /** Sorted and disjoint as `Orderly`, but the first segments may reach below `next`. */
  predicate Disjoint(ooo: seq<Parked>, edge: int) {
    && (forall i :: 0 <= i < |ooo| ==> ooo[i].data != [] && ooo[i].End() <= edge)
    && (forall i, j :: 0 <= i < j < |ooo| ==> ooo[i].End() <= ooo[j].pos)
  }

  /**
   * Draining reaches the first hole: it keeps the stream received so far, stays within the window
   * and leaves parked only segments strictly above the next expected byte.
   */
  lemma {:induction false} DrainReachesHole(rcvd: seq<byte>, ooo: seq<Parked>, edge: int)
    requires Disjoint(ooo, edge) && 1 + |rcvd| <= edge
    ensures var (rcvd', ooo') := Drain(rcvd, ooo);
      rcvd <= rcvd' && 1 + |rcvd'| <= edge && |ooo'| <= |ooo| && Orderly(ooo', 1 + |rcvd'|, edge)
    decreases |ooo|
  {
    var next := 1 + |rcvd|;
    if ooo == [] || ooo[0].pos > next {
      forall i | 0 < i < |ooo| ensures next < ooo[i].pos {
        assert ooo[0].End() <= ooo[i].pos;
      }
    } else {
      DrainReachesHole(Taken(rcvd, ooo[0]), ooo[1..], edge);
    }
  }

  /** Draining loses no parked segment: what leaves the list is a prefix of it, wholly received. */
  lemma {:induction false} DrainConsumes(rcvd: seq<byte>, ooo: seq<Parked>)
    ensures var (rcvd', ooo') := Drain(rcvd, ooo);
      && |rcvd| <= |rcvd'| && |ooo'| <= |ooo|
      && ooo == ooo[..|ooo| - |ooo'|] + ooo'
      && (forall x :: x in ooo[..|ooo| - |ooo'|] ==> x.End() <= 1 + |rcvd'|)
    decreases |ooo|
  {
    hide Drain;
    DrainUnfolds(rcvd, ooo);
    if ooo != [] && ooo[0].pos <= 1 + |rcvd| {
      var rest, rcvd1 := ooo[1..], Taken(rcvd, ooo[0]);
      DrainConsumes(rcvd1, rest);
      var gone := |rest| - |Drain(rcvd1, rest).1|;
      assert ooo[..gone + 1] == [ooo[0]] + rest[..gone];
    }
  }

  /** Draining adds only bytes of the stream the parked segments were cut from. */
  lemma {:induction false} DrainAgrees(rcvd: seq<byte>, ooo: seq<Parked>, stream: seq<byte>)
    requires Agrees(rcvd, ooo, stream)
    ensures Agrees(Drain(rcvd, ooo).0, Drain(rcvd, ooo).1, stream)
    decreases |ooo|
  {
    var next := 1 + |rcvd|;
    if ooo != [] && ooo[0].pos <= next {
      var rest := ooo[1..];
      if ooo[0].End() <= next {
        DrainAgrees(rcvd, rest, stream);
      } else {
        var rcvd1 := rcvd + ooo[0].data[next - ooo[0].pos..];
        assert rcvd1 == stream[..ooo[0].End() - 1];
        DrainAgrees(rcvd1, rest, stream);
      }
    }
  }

  /** The ordered insert keeps the list sorted and disjoint when nothing overlaps. */
  lemma {:induction false} InsertOrderly(ooo: seq<Parked>, q: Parked, next: int, edge: int)
    requires Orderly(ooo, next, edge)
    requires q.data != [] && next < q.pos && q.End() <= edge
    requires forall x :: x in ooo ==> !Overlap(x, q)
    ensures Orderly(InsertParked(ooo, q), next, edge)
    decreases |ooo|
  {
    if ooo == [] {
    } else if ooo[0].pos >= q.pos {
      assert ooo[0] in ooo;
      assert forall i :: 0 < i < |ooo| ==> ooo[0].End() <= ooo[i].pos;
    } else {
      assert ooo[0] in ooo && !Overlap(ooo[0], q);
      var rest := ooo[1..];
      InsertOrderly(rest, q, next, edge);
      var r := InsertParked(rest, q);
      forall i | 0 <= i < |r| ensures ooo[0].End() <= r[i].pos {
        assert r[i] in r;
        if r[i] != q {
          var j :| 0 <= j < |rest| && rest[j] == r[i];
          assert ooo[j + 1] == r[i];
        }
      }
      ConsOrderly(ooo[0], r, next, edge);
    }
  }

  lemma ConsOrderly(x: Parked, r: seq<Parked>, next: int, edge: int)
    requires Orderly(r, next, edge) && x.data != [] && next < x.pos && x.End() <= edge
    requires forall i :: 0 <= i < |r| ==> x.End() <= r[i].pos
    ensures Orderly([x] + r, next, edge)
  {
  }

  predicate ReceiveInv(r: Rx) {
    && r.read <= |r.rcvd| && |r.rcvd| - r.read <= RING
    && (!r.eof ==> Orderly(r.ooo, r.RcvNxt(), r.RightEdge()) && |r.ooo| <= OOO_MAX)
  }

  /**
   * Receiving a segment at any position: the out-of-order list stays sorted, disjoint, bounded, above
   * the next expected byte and inside the window; nothing received is lost; the window's right edge
   * does not move; and the in-order part of the segment is wholly taken, so the ring never overflows.
   */
  lemma ReceiveKeepsInv(r: Rx, pos: int, data: seq<byte>)
    requires !r.eof && ReceiveInv(r)
    ensures var r' := Receive(r, pos, data);
      && ReceiveInv(r') && r.rcvd <= r'.rcvd && r'.read == r.read && !r'.eof
      && r'.RightEdge() == r.RightEdge()
      && (pos <= r.RcvNxt() ==> r'.RcvNxt() >= Min(r.RightEdge(), pos + |data|))
  {
    hide Drain, InsertParked, Overlap;
    var t := Trim(r.RcvNxt(), r.RightEdge(), pos, data);
    if t.data != [] {
      if t.pos == r.RcvNxt() {
        DrainReachesHole(r.rcvd + t.data, r.ooo, r.RightEdge());
      } else if !(|r.ooo| >= OOO_MAX || exists x :: x in r.ooo && Overlap(x, t)) {
        InsertOrderly(r.ooo, t, r.RcvNxt(), r.RightEdge());
      }
    }
  }

  lemma ParkKeeps(ooo: seq<Parked>, t: Parked)
    requires t.data != []
    ensures forall x :: x in ooo ==> x in Park(ooo, t)
    ensures forall x :: x in Park(ooo, t) ==> x in ooo || x == t
    ensures t in Park(ooo, t) <==> t in ooo || (|ooo| < OOO_MAX && forall x :: x in ooo ==> !Overlap(x, t))
  {
    hide InsertParked;
  }

  /**
   * Text ahead of a hole, as far as it lies in the window, is kept exactly when fewer than 16 segments are
   * parked and it overlaps none of them; and no parked segment is ever lost to it.
   */
  lemma AheadIsKept(r: Rx, pos: int, data: seq<byte>)
    requires r.RcvNxt() < pos < r.RightEdge() && data != []
    ensures var t, r' := Parked(pos, data[..Min(|data|, r.RightEdge() - pos)]), Receive(r, pos, data);
      && r'.rcvd == r.rcvd
      && (forall x :: x in r.ooo ==> x in r'.ooo) && (forall x :: x in r'.ooo ==> x in r.ooo || x == t)
      && (t in r'.ooo <==> t in r.ooo || (|r.ooo| < OOO_MAX && forall x :: x in r.ooo ==> !Overlap(x, t)))
  {
    hide Drain, Overlap, InsertParked;
    var n := Min(|data|, r.RightEdge() - pos);
    assert data[0..n] == data[..n];
    ParkKeeps(r.ooo, Parked(pos, data[..n]));
  }

  lemma SliceOfSlice(p: Parked, t: Parked, stream: seq<byte>)
    requires Slice(p, stream) && p.pos <= t.pos && t.End() <= p.End()
    requires t.data == p.data[t.pos - p.pos..t.End() - p.pos]
    ensures Slice(t, stream)
  {
    assert forall k :: 0 <= k < |t.data| ==> t.data[k] == p.data[t.pos - p.pos + k];
    assert forall k :: 0 <= k < |p.data| ==> p.data[k] == stream[p.pos - 1 + k];
  }

  lemma ParkAgrees(ooo: seq<Parked>, t: Parked, stream: seq<byte>)
    requires Slice(t, stream) && forall i :: 0 <= i < |ooo| ==> Slice(ooo[i], stream)
    ensures forall i :: 0 <= i < |Park(ooo, t)| ==> Slice(Park(ooo, t)[i], stream)
  {
    var r := Park(ooo, t);
    forall i | 0 <= i < |r| ensures Slice(r[i], stream) {
      assert r[i] in r;
    }
  }

  /** If the segment is a slice of `stream`, so is everything received and parked afterwards. */
  lemma ReceiveAgrees(r: Rx, pos: int, data: seq<byte>, stream: seq<byte>)
    requires !r.eof && Agrees(r.rcvd, r.ooo, stream)
    requires data != [] ==> Slice(Parked(pos, data), stream)
    ensures Agrees(Receive(r, pos, data).rcvd, Receive(r, pos, data).ooo, stream)
  {
    hide Drain, InsertParked, Park, Slice;
    var t := Trim(r.RcvNxt(), r.RightEdge(), pos, data);
    if t.data != [] {
      SliceOfSlice(Parked(pos, data), t, stream);
      if t.pos == r.RcvNxt() {
        assert r.rcvd + t.data == stream[..|r.rcvd| + |t.data|];
        DrainAgrees(r.rcvd + t.data, r.ooo, stream);
      } else {
        ParkAgrees(r.ooo, t, stream);
      }
    }
  }
}
