/**
 * When a connection stalls: unsent text, nothing in flight, an open peer window, and a congestion window
 * whose 32-bit sum has wrapped to 0. Exactly after which events it does, and that no run without such a
 * wrap ever does.
 */
module TcpStall {
  import opened SeqSpace
  import opened ByteRings
  import opened TcpSpec
  import opened TcpEvents
  import opened TcpSteps
  import opened TcpSender
  import opened TcpControlBlock
  import opened TcpSystem
  import opened TcpTheorems
  import opened TcpRefinement

  // ---------------------------------------------------------------- one event

  /** A processed segment acknowledges all that is in flight, text is left, and only the congestion window is shut. */
  predicate StallsOn(c: Conn, seg: Segment, backlogFull: bool) {
    var t := TxAcked(c, seg);
    && !Ends(c, seg, backlogFull) && Sending(StateOf(t, RxAfter(c, seg).eof))
    && t.una == t.nxt && t.Unacked() != [] && CwndAfter(c, seg) == 0 && WndAfter(c, seg) != 0
  }

  /** A live connection is stalled after segment `seg`. One that is not processed changes nothing, or resets. */
  predicate InputStalls(c: Conn, seg: Segment, backlogFull: bool) {
    c.st != SynSent &&
    if Processed(c, seg) then StallsOn(c, seg, backlogFull)
    else Stalled(c) && !(seg.rst && Acceptable(c, seg) && SegPos(c, seg) == c.rx.RcvNxt())
  }

  /** A connection is stalled after event `ev`. */
  predicate StallAfter(c: Conn, peer: Conn, ev: Event) {
    match ev
    case Write(_, n, _) =>
      c.tx.una == c.tx.nxt && c.pace.cwnd == 0 && c.pace.sndWnd != 0 && (n > 0 || c.tx.Unacked() != [])
    case Abort => false
    case Deliver(i, _, backlogFull) =>
      c.st != Closed && i < |peer.sent| && InputStalls(c, peer.sent[i].seg, backlogFull)
    case _ => Stalled(c)
  }

  /** With unsent text and a congestion window of 0, the send engine sends nothing. */
  lemma NothingSent(t: Tx, t': Tx)
    requires SendInv(t') && t.una == t.nxt == t'.una && t'.written == t.written && t.Unacked() != [] && Within(t, t', 0)
    ensures t'.nxt == t.nxt && t'.finSent == t.finSent
  {
  }

  /** A write. */
  lemma WriteStallIff(c: Conn, data: seq<byte>, n: nat, now: nat, c': Conn)
    requires Inv(c) && Inv(c') && (c.st == Established || c.st == CloseWait) && WriteSpec(c, data, n, now, c')
    ensures Stalled(c') <==>
      c.tx.una == c.tx.nxt && c.pace.cwnd == 0 && c.pace.sndWnd != 0 && (n > 0 || c.tx.Unacked() != [])
  {
    hide LogInv, ReceiveInv, Contiguous, Proper, Timed, Exhausted, OwedInv, KarnInv, Started;
    var t := c.tx.(written := c'.tx.written);
    StallExactly(c');
    if c.tx.una == c.tx.nxt && c.pace.cwnd == 0 && t.Unacked() != [] {
      NothingSent(t, c'.tx);
    }
  }

  /** A close: the FIN needs no window. */
  lemma CloseStallIff(c: Conn, now: nat, c': Conn)
    requires Inv(c) && Inv(c') && c.st != Closed && CloseSpec(c, now, c')
    ensures Stalled(c') <==> Stalled(c)
  {
    hide LogInv, ReceiveInv, Contiguous, Proper, Timed, Exhausted, OwedInv, KarnInv, Started;
    StallExactly(c);
    StallExactly(c');
    if Stalled(c) && (c.st == Established || c.st == CloseWait) {
      NothingSent(c.tx.(closed := c'.tx.closed, closedFirst := c'.tx.closedFirst), c'.tx);
    }
  }

  /** For every call of the application and every tick: exactly when the connection is stalled after it. */
  lemma LocalStallIff(c: Conn, peer: Conn, ev: Event, c': Conn)
    requires Inv(c) && Inv(c') && Extends(c, c') && !ev.Deliver? && Local(c, ev, c')
    ensures Stalled(c') <==> StallAfter(c, peer, ev)
  {
    hide Inv, Extends, WriteSpec, CloseSpec, TickSpec, Build;
    match ev
    case Write(data, n, now) => WriteStallIff(c, data, n, now, c');
    case Close(now) => CloseStallIff(c, now, c');
    case Tick(now) => TickStallIff(c, now, c');
    case _ =>
  }

  lemma TickStallIff(c: Conn, now: nat, c': Conn)
    requires Inv(c) && Inv(c') && c.st != Closed && 0 <= c.rx.Window() && FlowInv(c.pace.flow) && TickSpec(c, now, c')
    ensures Stalled(c') <==> Stalled(c)
  {
    hide LogInv, ReceiveInv, OwedInv, KarnInv, Retransmits, IsReset, Build;
  }

  /** For every processed segment, with or without text and FIN. */
  lemma ProcessedStallIff(c: Conn, seg: Segment, now: nat, backlogFull: bool, c': Conn)
    requires Inv(c) && Inv(c') && c.st != Closed && c.st != SynSent && c.tx.nxt <= c'.tx.nxt
    requires Processed(c, seg) && ProcessedSpec(c, seg, now, backlogFull, c')
    ensures Stalled(c') <==> StallsOn(c, seg, backlogFull)
  {
    hide CwndAfter, WndAfter, Unwrap, Acceptable, LogInv, ReceiveInv, RxAfter, IsReset;
    if StallsOn(c, seg, backlogFull) {
      NothingSent(TxAcked(c, seg), c'.tx);
    }
  }

  /** The handshake has no text to leave unsent. */
  lemma HandshakeNeverStalls(c: Conn, seg: Segment, c': Conn)
    requires Inv(c) && c.st == SynSent && 0 <= c.rx.Window() && SynSentSpec(c, seg, c')
    ensures !Stalled(c')
  {
    hide LogInv, ReceiveInv, Unwrap, StartWindow, ResetFor;
  }

  /** What a segment that is not processed leaves: the same connection with more in the log, or none. */
  lemma UnprocessedStallIff(c: Conn, seg: Segment, now: nat, backlogFull: bool, c': Conn)
    requires c.st != SynSent && 0 <= c.rx.Window() && InputSpec(c, seg, now, backlogFull, c') && !Processed(c, seg)
    ensures var freed := seg.rst && Acceptable(c, seg) && SegPos(c, seg) == c.rx.RcvNxt();
      Stalled(c') <==> Stalled(c) && !freed
  {
    hide Unwrap, Acceptable, Build, ResetFor, ProcessedSpec, SynSentSpec;
  }

  /** For every segment. */
  lemma InputStallIff(c: Conn, seg: Segment, now: nat, backlogFull: bool, c': Conn)
    requires Inv(c) && Inv(c') && Extends(c, c') && c.st != Closed
    requires 0 <= c.rx.Window() && InputSpec(c, seg, now, backlogFull, c')
    ensures Stalled(c') <==> InputStalls(c, seg, backlogFull)
  {
    hide StallsOn, ProcessedSpec, SynSentSpec, Stalled, Unwrap, Core, Extends, Build, ResetFor, Inv;
    ExtendsNxt(c, c');
    if c.st == SynSent {
      HandshakeNeverStalls(c, seg, c');
    } else if Processed(c, seg) {
      ProcessedStallIff(c, seg, now, backlogFull, c');
    } else {
      UnprocessedStallIff(c, seg, now, backlogFull, c');
    }
  }

  /** For every event: the connection is stalled after it if and only if `StallAfter` holds before. */
  lemma StallIff(c: Conn, peer: Conn, ev: Event, c': Conn)
    requires Inv(c) && Inv(c') && Extends(c, c') && Step(c, peer, ev, c')
    ensures Stalled(c') <==> StallAfter(c, peer, ev)
  {
    hide Inv, Extends, InputSpec, InputStalls, Local;
    if !ev.Deliver? {
      LocalStallIff(c, peer, ev, c');
    } else if c.st != Closed {
      InputStallIff(c, peer.sent[ev.i].seg, ev.now, ev.backlogFull, c');
    }
  }

  /** A stalled connection stays stalled, whatever the application writes, reads or closes and however long it waits. */
  lemma StalledStays(c: Conn, ev: Event, c': Conn)
    requires Inv(c) && Stalled(c) && Inv(c') && !ev.Deliver? && !ev.Abort? && Local(c, ev, c')
    ensures Stalled(c')
  {
    hide LogInv, ReceiveInv, Contiguous;
    if ev.Write? {
      NothingSent(c.tx.(written := c'.tx.written), c'.tx);
    } else if ev.Close? && (c.st == Established || c.st == CloseWait) {
      NothingSent(c.tx.(closed := c'.tx.closed, closedFirst := c'.tx.closedFirst), c'.tx);
    }
  }

  // ---------------------------------------------------------------- the wrap

  /**
   * `seg` brings the 32-bit congestion window to exactly 2^32: by the growth of a new acknowledgment, or by
   * the inflation of a duplicate after the third.
   */
  predicate Wraps(c: Conn, seg: Segment) {
    var a, f := AckPos(c, seg), c.pace.flow;
    && c.st != SynRcvd
    && if a > c.tx.una then
         f.dupacks < 3 && c.pace.cwnd + Increment(c.pace.cwnd, f.ssthresh, DataAcked(c.tx, a), f.mss) == MODULUS
       else IsDuplicate(c, seg) && Wrap(f.dupacks + 1) > 3 && c.pace.cwnd + f.mss == MODULUS
  }

  /** The event delivers such a segment. */
  predicate WrapStep(c: Conn, peer: Conn, ev: Event) {
    && ev.Deliver? && ev.i < |peer.sent| && c.st != Closed && c.st != SynSent
    && Processed(c, peer.sent[ev.i].seg) && Wraps(c, peer.sent[ev.i].seg)
  }

  lemma CwndZeroIff(c: Conn, seg: Segment)
    requires c.pace.cwnd != 0 && FlowInv(c.pace.flow) && c.tx.nxt - c.tx.una < MODULUS
    ensures CwndAfter(c, seg) == 0 <==> Wraps(c, seg)
  {
    hide Wrap, Unwrap, DataAcked, Increment, GrownWindow, DuplicateWindow;
    var f := c.pace.flow;
    WindowZeroOnlyByWrap(c.pace.cwnd, f.ssthresh, f.dupacks, DataAcked(c.tx, AckPos(c, seg)), f.mss);
    if IsDuplicate(c, seg) {
      DuplicateZeroOnlyByWrap(c.pace.cwnd, f.ssthresh, Wrap(f.dupacks + 1), c.tx.nxt - c.tx.una, 0, f.mss);
    }
  }

  lemma FlowFacts(c: Conn)
    requires Inv(c) && c.st != Closed
    ensures FlowInv(c.pace.flow) && c.tx.nxt - c.tx.una < MODULUS
  {
  }

  /** A live connection's congestion window becomes 0 at exactly these steps. */
  lemma CwndStep(c: Conn, peer: Conn, ev: Event, c': Conn)
    requires Inv(c) && Inv(c') && Step(c, peer, ev, c') && c'.st != Closed && c.st != Closed && c.pace.cwnd != 0
    ensures c'.pace.cwnd == 0 <==> WrapStep(c, peer, ev)
  {
    hide Inv, CwndAfter, WndAfter, FlowAfter, Wraps, Unwrap, Acceptable, Within, Contiguous, RxAfter, IsReset;
    hide Retransmits, Proper, Timed, Exhausted, Rescheduled, Owing, WaitSet, IsThird;
    FlowFacts(c);
    FlowFacts(c');
    if ev.Deliver? {
      CwndZeroIff(c, peer.sent[ev.i].seg);
    }
  }

  /** `seg` is a new acknowledgment of all that is in flight; text is left, and the peer's window is open. */
  predicate LeavesText(c: Conn, seg: Segment) {
    && c.tx.una < AckPos(c, seg) == c.tx.nxt && c.tx.(una := c.tx.nxt).Unacked() != [] && WndAfter(c, seg) != 0
    && Sending(StateOf(TxAcked(c, seg), RxAfter(c, seg).eof))
  }

  /** From a window that is not 0, a connection stalls exactly on such an acknowledgment that wraps the window. */
  lemma FirstStall(c: Conn, peer: Conn, ev: Event, c': Conn)
    requires Inv(c) && Inv(c') && Extends(c, c') && Step(c, peer, ev, c') && c.pace.cwnd != 0
    ensures Stalled(c') <==> WrapStep(c, peer, ev) && LeavesText(c, peer.sent[ev.i].seg)
  {
    hide Extends, Step, LogInv, ReceiveInv, WndAfter, CwndAfter, Unwrap, Acceptable, RxAfter;
    StallIff(c, peer, ev, c');
    if c.st != Closed && ev.Deliver? && ev.i < |peer.sent| {
      FlowFacts(c);
      CwndZeroIff(c, peer.sent[ev.i].seg);
    }
  }

  // ---------------------------------------------------------------- whole runs

  /** None of the first `i` steps of a run wraps the congestion window of this endpoint. */
  predicate NoWrap(run: seq<System>, acts: seq<Action>, i: nat, atA: bool)
    requires i <= |acts| < |run|
  {
    forall j :: 0 <= j < i && acts[j].atA == atA ==>
      !WrapStep(Endpoint(run[j], atA), Endpoint(run[j], !atA), acts[j].ev)
  }

  /** A run in which the congestion window never wraps has no stalled state. */
  lemma {:induction false} NeverStalls(run: seq<System>, acts: seq<Action>, i: nat, atA: bool)
    requires IsRun(run, acts) && i < |run| && NoWrap(run, acts, i, atA)
    ensures var c := Endpoint(run[i], atA); !Stalled(c) && (c.st != Closed ==> c.pace.cwnd != 0)
    decreases i
  {
    hide Core, Step, Link, WrapStep, Extends;
    RunKeepsInv(run, acts, i);
    if i > 0 {
      NeverStalls(run, acts, i - 1, atA);
      RunKeepsInv(run, acts, i - 1);
      RunExtends(run, acts, i - 1, i, atA);
      var act, c, c' := acts[i - 1], Endpoint(run[i - 1], atA), Endpoint(run[i], atA);
      assert Next(run[i - 1], act.atA, act.ev, run[i - 1 + 1]);
      StaysClosed(c, c');
      if act.atA == atA && c'.st != Closed {
        CwndStep(c, Endpoint(run[i - 1], !atA), act.ev, c');
      }
    }
  }

  lemma StaysClosed(c: Conn, c': Conn)
    requires Extends(c, c')
    ensures c.st == Closed ==> c'.st == Closed
  {
  }

  // ---------------------------------------------------------------- control blocks

  /** Any segment at all, on a control block in any live state. */
  method Arrive(x: Tcb, seg: Segment, now: nat, backlogFull: bool)
    requires x.Valid() && x.st != Closed && |seg.data| + 2 <= RING
    modifies x, x.s, x.s.ring, x.r, x.r.ring, x.r.ring.buf, x.r.ooo, x.r.ooo.nodes, x.t, x.g, x.o
    ensures x.Valid() && (Stalled(x.Abs()) <==> InputStalls(old(x.Abs()), seg, backlogFull))
  {
    hide Core, Extends, InputSpec, InputStalls, Stalled;
    ghost var c := x.Abs();
    WindowOpen(c);
    x.Input(seg, now, backlogFull);
    InputStallIff(c, seg, now, backlogFull, x.Abs());
  }

  /** Any call, on a control block in any state. */
  method Act(x: Tcb, call: Call, now: nat, ghost peer: Conn, ghost i: nat) returns (n: nat, bytes: seq<byte>)
    requires x.Valid() && Enabled(x.Abs(), call, peer, i) && Inv(peer)
    modifies Frame(x)
    ensures x.Valid() && (Stalled(x.Abs()) <==> StallAfter(old(x.Abs()), peer, EventOf(call, now, i, n, bytes)))
  {
    hide Core, Extends, Step, Enabled, StallAfter, Stalled, EventOf;
    ghost var c := x.Abs();
    n, bytes := Perform(x, call, now, peer, i);
    StallIff(c, peer, EventOf(call, now, i, n, bytes), x.Abs());
  }

  /** Two control blocks whose congestion windows have never wrapped are not stalled. */
  lemma PairNeverStalls(p: Pair, atA: bool)
    requires p.Valid() && NoWrap(p.run, p.acts, |p.acts|, atA)
    ensures var x := if atA then p.a else p.b; !Stalled(x.Abs()) && (x.st != Closed ==> x.g.cwnd != 0)
  {
    hide Tcb.Valid, IsRun, NoWrap;
    NeverStalls(p.run, p.acts, |p.acts|, atA);
  }

  // ---------------------------------------------------------------- an example

  /** An established connection, its handshake in the log. */
  function Opening(written: seq<byte>): Conn {
    var c := Conn(Established, 0, 0, true, Tx(written, 1, 1461, false, false, false), Rx([], 0, false, []),
                  Pace(RING, 0xffff_fa4c, 1, 0, 0, Flow(0xffff_ffff, 0, OUR_MSS, 1, 1, false),
                       Rtt(-1, -1, RTO_MIN, false, 0, 0), Owed(0, 0, RING), 0), []);
    c.(sent := [Build(c, 0, [], true, false, false), Build(c, 1, [], false, true, false)])
  }

  /** The same with 1460 bytes sent, more text to send, an open window. */
  function Loaded(written: seq<byte>): Conn
    requires |written| == 3000
  {
    var c := Opening(written);
    c.(sent := c.sent + [Build(c, 1, written[..1460], false, true, false)])
  }

  /** And the acknowledgment of those bytes. */
  const LAST_ACK := Segment(1, 1461, RING, false, true, false, false, 0, [])

  lemma LoadedAcked(written: seq<byte>)
    requires |written| == 3000
    ensures AckPos(Loaded(written), LAST_ACK) == 1461 && Processed(Loaded(written), LAST_ACK)
  {
    hide Unwrap, Wrap;
    WrapSmall(1461);
    WrapSmall(1);
    UnwrapExact(0, 1461, 1461);
    UnwrapExact(0, 1, 1);
  }

  lemma LoadedInv(written: seq<byte>)
    requires |written| == 3000
    ensures Inv(Loaded(written))
  {
    hide Wrap;
    var c := Loaded(written);
    assert c.sent[2].seg.data == written[..1460] == written[0..1460];
    assert Said(c, 2);
  }

  /** It can happen. */
  lemma StallHappens(written: seq<byte>)
    requires |written| == 3000
    ensures var c := Loaded(written);
      Inv(c) && c.pace.cwnd != 0 && Processed(c, LAST_ACK) && Wraps(c, LAST_ACK) && StallsOn(c, LAST_ACK, false)
  {
    hide Unwrap, SignedDiff, Inv;
    LoadedInv(written);
    LoadedAcked(written);
    var t := Loaded(written).tx;
    assert |t.Unacked()| == 3000 && |t.(una := 1461).Unacked()| == 1540;
  }
}
