/** Text and FIN of a segment whose acknowledgment has been taken, on values: the last two phases of `tcp_input`. */
module TcpPhases {
  import opened SeqSpace
  import opened ByteRings
  import opened TcpSpec
  import opened TcpEvents
  import opened TcpReceiver
  import opened TcpSteps

  /** Duplicates and holes are acknowledged at once, text in order when some is owed already. */
  predicate AckNow(k: Verdict, owed: Owed) { k == Duplicate || k == Hole || (k == InOrder && owed.count >= 1) }

  /** `tcp_rx_payload`: the text is received, and acknowledged now or within 40 milliseconds. */
  predicate TextTaken(d: Conn, pos: int, data: seq<byte>, now: nat, e: Conn) {
    var k, d' := Kind(d.rx, pos, data), d.(rx := Receive(d.rx, pos, data));
    && 0 <= d'.rx.Window()
    && e == if k == Outside then d'
            else if AckNow(k, d.pace.owed) then Acked(d')
            else d'.(pace := d.pace.(owed := Owed(1, now + DELACK, d.pace.owed.told)))
  }

  /** Step seven: in a state that takes text. */
  predicate TextPhase(d: Conn, seg: Segment, pos: int, now: nat, e: Conn) {
    if Receiving(d.st) && seg.data != [] then TextTaken(d, pos, seg.data, now, e) else e == d
  }

  /** The connection once the peer's FIN is consumed: TIME-WAIT begins now when ours is acknowledged. */
  function FinConsumed(e: Conn, now: nat): Conn {
    e.(rx := e.rx.(eof := true), st := StateOf(e.tx, true),
       pace := e.pace.(waitUntil := if e.st == FinWait2 then now + 2 * MSL else e.pace.waitUntil))
  }

  /** Step eight. */
  predicate FinPhase(e: Conn, seg: Segment, now: nat, c': Conn) {
    0 <= e.rx.Window() &&
    if FinHere(seg, e, e.rx) && Receiving(e.st) then c' == Acked(FinConsumed(e, now))
    else if FinHere(seg, e, e.rx) && e.st == TimeWait then c' == Acked(e).(pace := Paid(e).(waitUntil := now + 2 * MSL))
    else c' == e
  }

  /** Text that moves RCV.NXT is in order; text out of order is a duplicate or leaves a hole. */
  lemma KindOf(r: Rx, pos: int, data: seq<byte>)
    requires data != []
    ensures Receive(r, pos, data).RcvNxt() != r.RcvNxt() <==> Kind(r, pos, data) == InOrder
    ensures pos + |data| <= r.RcvNxt() ==> Kind(r, pos, data) == Duplicate
    ensures r.RcvNxt() < pos < r.RightEdge() ==> Kind(r, pos, data) == Hole
    ensures Kind(r, pos, data) == Outside ==> Receive(r, pos, data) == r
  {
    hide Drain, Park;
    var t := Trim(r.RcvNxt(), r.RightEdge(), pos, data);
    DrainConsumes(r.rcvd + t.data, r.ooo);
  }

  /** Text that is taken keeps the invariant. */
  lemma TextTakenKeepsInv(c: Conn, pos: int, data: seq<byte>, now: nat, c': Conn)
    requires Inv(c) && Receiving(c.st) && data != [] && TextTaken(c, pos, data, now, c')
    ensures Inv(c') && Extends(c, c')
  {
    hide Inv, Extends, Receive, Kind, Build;
    KindOf(c.rx, pos, data);
    var d := c.(rx := Receive(c.rx, pos, data), pace := c.pace.(owed := Owed(1, now + DELACK, c.pace.owed.told)));
    TextKeepsInv(c, pos, data, d.pace.owed);
    ExtendsRefl(c);
    ReceivingSynced(c);
    if AckNow(Kind(c.rx, pos, data), c.pace.owed) {
      AckedKeepsInv(d);
      AckedPays(c.(rx := d.rx), d);
      ExtendsTrans(c, d, Acked(d));
    }
  }

  lemma ReceivingSynced(c: Conn)
    requires Inv(c) && Receiving(c.st)
    ensures c.synced
  {
  }

  lemma TextOwes(c: Conn, seg: Segment, now: nat, d: Conn, e: Conn)
    requires d.rx == c.rx && c.sent <= d.sent && StillOwing(c, d) && (Takes(c, seg) <==> Receiving(d.st))
    requires TextPhase(d, seg, SegPos(c, seg), now, e)
    ensures e.rx == RxText(c, seg) && d.sent <= e.sent
    ensures e == d.(rx := e.rx, pace := d.pace.(owed := e.pace.owed), sent := e.sent)
    ensures e.pace.owed.due == 0 ||
      if e.rx.RcvNxt() == c.rx.RcvNxt() then e.pace.owed == c.pace.owed
      else e.pace.owed.count == 1 && e.pace.owed.due == now + DELACK && (c.pace.owed.count == 0 || Told(c, e))
    ensures OutOfOrder(c, seg) ==> e.pace.owed.due == 0 && JustAcked(e) && |c.sent| < |e.sent|
  {
    hide Unwrap, Receive, Kind, Takes;
    if seg.data != [] {
      KindOf(c.rx, SegPos(c, seg), seg.data);
    }
  }

  /** What is owed after both phases, and when TIME-WAIT ends. */
  lemma PhasesOwe(c: Conn, seg: Segment, now: nat, d: Conn, e: Conn, c': Conn)
    requires d.rx == c.rx && c.sent <= d.sent && StillOwing(c, d) && WaitEntered(c, now, d) && 0 <= c.rx.Window()
    requires (c.st == TimeWait ==> d.st == TimeWait) && (Takes(c, seg) <==> Receiving(d.st))
    requires TextPhase(d, seg, SegPos(c, seg), now, e) && FinPhase(e, seg, now, c')
    requires FinTaken(c, seg) <==> FinHere(seg, e, e.rx) && Receiving(d.st)
    requires !Takes(c, seg) ==> (FinHere(seg, e, e.rx) <==> seg.fin && SegPos(c, seg) + |seg.data| == c.rx.RcvNxt())
    requires Receiving(d.st) ==> (StateOf(d.tx, true) == TimeWait <==> d.st == FinWait2)
    ensures Owing(c, seg, now, c') && WaitSet(c, seg, now, c') && d.sent <= c'.sent
    ensures c' == d.(rx := c'.rx, st := c'.st, pace := c'.pace, sent := c'.sent)
    ensures c'.pace == d.pace.(owed := c'.pace.owed, waitUntil := c'.pace.waitUntil)
    ensures c'.rx == if FinTaken(c, seg) then e.rx.(eof := true) else e.rx
  {
    hide TextPhase, Unwrap, RxText, Takes, StateOf, OutOfOrder, FinHere, FinTaken, StillOwing;
    TextOwes(c, seg, now, d, e);
  }

  lemma WaitStays(c: Conn, seg: Segment, now: nat, d: Conn)
    requires Core(c) && c.st == TimeWait && AckSpec(c, seg, now, d) && AckPos(c, seg) <= c.tx.nxt
    ensures d.st == TimeWait
  {
    hide LogInv, OwedInv, KarnInv, Unwrap, Rescheduled, Windowed, Retransmits, IsThird;
  }

  /** After the acknowledgment and the text, the FIN test on numbers is the one on positions. */
  lemma TextThenFinPhase(c: Conn, seg: Segment, now: nat, d: Conn, e: Conn)
    requires AckSpec(c, seg, now, d) && d.st != Closed && TextPhase(d, seg, SegPos(c, seg), now, e)
    requires ReceiveInv(c.rx) && Acceptable(c, seg) && |seg.data| + 2 <= RING
    ensures e.st == d.st && e.rx == RxText(c, seg)
    ensures FinTaken(c, seg) <==> FinHere(seg, e, e.rx) && Receiving(d.st)
    ensures !Takes(c, seg) ==> (FinHere(seg, e, e.rx) <==> seg.fin && SegPos(c, seg) + |seg.data| == c.rx.RcvNxt())
    ensures Takes(c, seg) <==> Receiving(d.st)
    ensures RxAfter(c, seg) == if FinTaken(c, seg) then e.rx.(eof := true) else e.rx
  {
    hide Wrap, Unwrap, Acceptable, Receive, ReceiveInv, AckSpec, RxText, Takes, Kind;
    AckKeepsSync(c, seg, now, d);
    TextThenFin(c, seg, now, d, e.rx);
  }

  /** The two phases together do what the specification of a processed segment says of them. */
  lemma PhasesMeet(c: Conn, seg: Segment, now: nat, d: Conn, e: Conn, c': Conn)
    requires Core(c) && c.st != Closed && AckPos(c, seg) <= c.tx.nxt
    requires AckSpec(c, seg, now, d) && d.st != Closed && Inv(d)
    requires ReceiveInv(c.rx) && Acceptable(c, seg) && |seg.data| + 2 <= RING
    requires TextPhase(d, seg, SegPos(c, seg), now, e) && FinPhase(e, seg, now, c')
    ensures Owing(c, seg, now, c') && WaitSet(c, seg, now, c') && d.sent <= c'.sent && c'.rx == RxAfter(c, seg)
    ensures c' == d.(rx := c'.rx, st := c'.st, pace := c'.pace, sent := c'.sent)
    ensures c'.pace == d.pace.(owed := c'.pace.owed, waitUntil := c'.pace.waitUntil)
  {
    hide Core, Inv, AckSpec, TextPhase, FinPhase, Unwrap, Acceptable, ReceiveInv, RxText, Takes, FinTaken, FinHere;
    hide RxAfter, StateOf, Owing, WaitSet;
    AckKeepsSync(c, seg, now, d);
    TextThenFinPhase(c, seg, now, d, e);
    CoreReceives(c);
    if c.st == TimeWait {
      WaitStays(c, seg, now, d);
    }
    if Receiving(d.st) {
      FinState(d);
    }
    PhasesOwe(c, seg, now, d, e, c');
  }
}
