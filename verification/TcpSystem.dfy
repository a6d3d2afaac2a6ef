/** Two TCP endpoints joined by a network that may lose, duplicate, delay and reorder segments. */
module TcpSystem {
  import opened SeqSpace
  import opened ByteRings
  import opened TcpSpec
  import opened TcpEvents

  /** What can happen to an endpoint. `Deliver(i)` hands it any segment its peer ever transmitted. */
  datatype Event =
    | Write(data: seq<byte>, n: nat, now: nat)
    | Read(cap: nat, bytes: seq<byte>)
    | Close(now: nat)
    | Abort
    | Nagle(off: bool)
    | Tick(now: nat)
    | Deliver(i: nat, now: nat, backlogFull: bool)

  /** The network delays a segment by at most 2^31 positions of either stream; a RST by any time at all. */
  predicate Fresh(c: Conn, e: Sent) {
    e.seg.rst || (c.rx.RcvNxt() - e.pos <= HALF && c.tx.nxt - e.ackPos <= HALF)
  }

  /** The calls of the application and the clock, each by the control block's contract. */
  predicate Local(c: Conn, ev: Event, c': Conn)
    requires !ev.Deliver?
  {
    c.st != Closed && 0 <= c.rx.Window() && FlowInv(c.pace.flow) &&
    match ev
    case Write(data, n, now) => (c.st == Established || c.st == CloseWait) && WriteSpec(c, data, n, now, c')
    case Read(cap, bytes) => ReadSpec(c, cap, bytes, c')
    case Close(now) => c.st != SynRcvd && CloseSpec(c, now, c')
    case Abort => AbortSpec(c, c')
    case Nagle(off) => c' == NagleSet(c, off)
    case Tick(now) => TickSpec(c, now, c')
  }

  /** One event at an endpoint; a segment for a connection that is gone is answered with a RST. */
  predicate Step(c: Conn, peer: Conn, ev: Event, c': Conn) {
    if !ev.Deliver? then Local(c, ev, c')
    else
      ev.i < |peer.sent| && Fresh(c, peer.sent[ev.i]) && 0 <= c.rx.Window() &&
      if c.st == Closed then c' == Refused(c, peer.sent[ev.i].seg)
      else InputSpec(c, peer.sent[ev.i].seg, ev.now, ev.backlogFull, c')
  }

  /** What the receiving endpoint `y` may hold of the stream written at `x`. */
  predicate Link(x: Conn, y: Conn) {
    && (y.synced ==> y.irs == x.iss)
    && Agrees(y.rx.rcvd, y.rx.ooo, x.tx.written)
    && (y.rx.eof ==> x.tx.finSent && y.rx.rcvd == x.tx.written)
    && x.tx.una <= (if y.synced then y.rx.RcvNxt() else 0)
  }

  datatype System = System(a: Conn, b: Conn)

  predicate SystemInv(s: System) {
    Inv(s.a) && Inv(s.b) && Link(s.a, s.b) && Link(s.b, s.a)
  }

  /** One endpoint takes one event, and its control block keeps its own invariant. */
  predicate Next(s: System, atA: bool, ev: Event, s': System) {
    && Inv(s'.a) && Inv(s'.b)
    && if atA then s'.b == s.b && Extends(s.a, s'.a) && Step(s.a, s.b, ev, s'.a)
       else s'.a == s.a && Extends(s.b, s'.b) && Step(s.b, s.a, ev, s'.b)
  }

  // ---------------------------------------------------------------- one step

  /** A fresh segment of the peer is read back at the positions it was sent for. */
  lemma ReadBack(x: Conn, y: Conn, e: Sent)
    requires SendInv(x.tx) && SendInv(y.tx) && Link(x, y) && Link(y, x) && Faithful(x, e) && Fresh(y, e) && !e.seg.rst
    ensures y.synced ==> SegPos(y, e.seg) == e.pos
    ensures e.seg.acks ==> AckPos(y, e.seg) == e.ackPos
  {
    hide Unwrap, Wrap, Slice;
    UnwrapExact(y.irs, y.rx.RcvNxt(), e.pos);
    UnwrapExact(y.iss, y.tx.nxt, e.ackPos);
  }

  /** Text and FIN of a faithful segment only bring what the peer wrote. */
  lemma TextAgrees(x: Conn, y: Conn, e: Sent)
    requires TrueText(x.iss, x.tx, e) && Agrees(y.rx.rcvd, y.rx.ooo, x.tx.written)
    requires !y.rx.eof && SegPos(y, e.seg) == e.pos
    ensures Agrees(RxAfter(y, e.seg).rcvd, RxAfter(y, e.seg).ooo, x.tx.written)
    ensures RxAfter(y, e.seg).eof ==> x.tx.finSent && RxAfter(y, e.seg).rcvd == x.tx.written
  {
    if e.seg.data != [] {
      ReceiveAgrees(y.rx, e.pos, e.seg.data, x.tx.written);
    }
  }

  /** What a processed segment means for the link. */
  lemma ProcessedKeepsLink(x: Conn, y: Conn, e: Sent, now: nat, backlogFull: bool, y': Conn)
    requires SendInv(x.tx) && SendInv(y.tx) && Link(x, y) && Link(y, x) && Faithful(x, e) && Fresh(y, e) && !e.seg.rst
    requires y.synced && Processed(y, e.seg) && ProcessedSpec(y, e.seg, now, backlogFull, y')
    ensures Link(x, y') && Link(y', x)
  {
    hide Windowed, Rescheduled, Owing, Retransmits, IsThird, WaitSet, Unwrap, Wrap, IsReset, Acceptable, Ends;
    ReadBack(x, y, e);
    if !y.rx.eof {
      TextAgrees(x, y, e);
    } else {
      EofStays(y, e.seg);
    }
    ReceivesForward(y, e.seg);
  }

  /** After the peer's FIN no text is taken. */
  lemma EofStays(y: Conn, seg: Segment)
    requires y.rx.eof
    ensures RxAfter(y, seg) == y.rx
  {
    hide Unwrap, Receive;
  }

  lemma {:induction false} ReceivesForward(y: Conn, seg: Segment)
    ensures y.rx.RcvNxt() <= RxAfter(y, seg).RcvNxt()
  {
    hide Unwrap, Drain, Park, StateOf;
    var pos := SegPos(y, seg);
    if RxText(y, seg) != y.rx {
      var t := Trim(y.rx.RcvNxt(), y.rx.RightEdge(), pos, seg.data);
      DrainConsumes(y.rx.rcvd + t.data, y.rx.ooo);
    }
  }

  /** The peer's SYN fixes the origin of its stream. */
  lemma HeardKeepsLink(x: Conn, y: Conn, e: Sent, y': Conn)
    requires SendInv(x.tx) && SendInv(y.tx) && Link(x, y) && Link(y, x) && Faithful(x, e) && Fresh(y, e)
    requires y.st == SynSent && StateInv(y) && 0 <= y.rx.Window() && SynSentSpec(y, e.seg, y')
    ensures Link(x, y') && Link(y', x)
  {
    hide Unwrap;
    if !e.seg.rst {
      ReadBack(x, y, e);
      WrapWord(x.iss);
    }
  }

  /** Any segment of the peer, delivered late or again, keeps the link in both directions. */
  lemma DeliverKeepsLink(x: Conn, y: Conn, e: Sent, now: nat, backlogFull: bool, y': Conn)
    requires SendInv(x.tx) && SendInv(y.tx) && Link(x, y) && Link(y, x) && Faithful(x, e) && Fresh(y, e)
    requires 0 <= y.rx.Window() && y.st != Closed && StateInv(y)
    requires Extends(y, y') && InputSpec(y, e.seg, now, backlogFull, y')
    ensures Link(x, y') && Link(y', x)
  {
    hide ProcessedSpec, SynSentSpec, Extends, Faithful, Fresh, Unwrap, Build;
    if y.st == SynSent {
      HeardKeepsLink(x, y, e, y');
    } else if Processed(y, e.seg) {
      ProcessedKeepsLink(x, y, e, now, backlogFull, y');
    }
  }

  /** The parts of a connection its peer depends on, apart from what was written. */
  predicate Quiet(c: Conn, c': Conn) {
    && c'.rx == c.rx.(read := c'.rx.read) && c'.tx.una == c.tx.una
    && c'.synced == c.synced && c'.irs == c.irs
  }

  /** What an endpoint does on its own leaves the other direction alone. */
  lemma LocalIsQuiet(c: Conn, ev: Event, c': Conn)
    requires !ev.Deliver? && Local(c, ev, c')
    ensures Quiet(c, c')
  {
    hide Proper, Exhausted, Contiguous, Timed, Retransmits, BackedOff, IsReset;
  }

  lemma QuietKeepsLink(x: Conn, y: Conn, y': Conn)
    requires Link(x, y) && Link(y, x) && Quiet(y, y') && Extends(y, y') && (y.tx.finSent ==> y.tx.closed)
    ensures Link(x, y') && Link(y', x)
  {
    forall k | 0 <= k < |x.rx.ooo| ensures Slice(x.rx.ooo[k], y'.tx.written) {
      SliceOfExtension(x.rx.ooo[k], y.tx.written, y'.tx.written);
    }
  }

  /** Every event at either endpoint keeps the invariant of the whole system. */
  lemma NextKeepsInv(s: System, atA: bool, ev: Event, s': System)
    requires SystemInv(s) && Next(s, atA, ev, s')
    ensures SystemInv(s')
  {
    hide Extends, InputSpec, Faithful, SendInv, ReceiveInv;
    var (x, y, y') := if atA then (s.b, s.a, s'.a) else (s.a, s.b, s'.b);
    if ev.Deliver? && y.st != Closed {
      DeliverKeepsLink(x, y, x.sent[ev.i], ev.now, ev.backlogFull, y');
    } else {
      if !ev.Deliver? {
        LocalIsQuiet(y, ev, y');
      }
      FinIsClosed(y);
      QuietKeepsLink(x, y, y');
    }
  }

  lemma FinIsClosed(c: Conn)
    requires SendInv(c.tx)
    ensures c.tx.finSent ==> c.tx.closed
  {
  }

  // ---------------------------------------------------------------- runs

  /** One event of a run: where it happens and what it is. */
  datatype Action = Action(atA: bool, ev: Event)

  /** A client that has sent its SYN, and a peer that has answered it or sent its own. */
  predicate Init(s: System) {
    && Opened(s.a) && Opened(s.b)
    && (s.a.synced ==> !s.b.synced && s.a.irs == s.b.iss)
    && (s.b.synced ==> !s.a.synced && s.b.irs == s.a.iss)
  }

  predicate IsRun(run: seq<System>, acts: seq<Action>) {
    && |run| == |acts| + 1 && Init(run[0])
    && forall i :: 0 <= i < |acts| ==> Next(run[i], acts[i].atA, acts[i].ev, run[i + 1])
  }

  lemma InitInv(s: System)
    requires Init(s)
    ensures SystemInv(s)
  {
    OpenedInv(s.a);
    OpenedInv(s.b);
  }

  /** The system invariant holds in every state of every run. */
  lemma {:induction false} RunKeepsInv(run: seq<System>, acts: seq<Action>, i: nat)
    requires IsRun(run, acts) && i < |run|
    ensures SystemInv(run[i])
    decreases i
  {
    hide SystemInv, Next, Init;
    if i == 0 {
      InitInv(run[0]);
    } else {
      RunKeepsInv(run, acts, i - 1);
      assert Next(run[i - 1], acts[i - 1].atA, acts[i - 1].ev, run[i - 1 + 1]);
      NextKeepsInv(run[i - 1], acts[i - 1].atA, acts[i - 1].ev, run[i]);
    }
  }
}
