/** What holds of every run of two TCP endpoints, in terms of the calls their applications make. */
module TcpTheorems {
  import opened SeqSpace
  import opened ByteRings
  import opened TcpSpec
  import opened TcpEvents
  import opened TcpSystem

  function Endpoint(s: System, atA: bool): Conn { if atA then s.a else s.b }

  /** The bytes an event takes from the application, and those it returns to it. */
  function Accepted(ev: Event): seq<byte> { if ev.Write? && ev.n <= |ev.data| then ev.data[..ev.n] else [] }
  function Returned(ev: Event): seq<byte> { if ev.Read? then ev.bytes else [] }

  /** Everything accepted by `pf_send` at one endpoint. */
  function Written(acts: seq<Action>, atA: bool): seq<byte> {
    if acts == [] then []
    else
      var last := acts[|acts| - 1];
      Written(acts[..|acts| - 1], atA) + (if last.atA == atA then Accepted(last.ev) else [])
  }

  /** Everything returned by `pf_recv` at one endpoint. */
  function Read(acts: seq<Action>, atA: bool): seq<byte> {
    if acts == [] then []
    else
      var last := acts[|acts| - 1];
      Read(acts[..|acts| - 1], atA) + (if last.atA == atA then Returned(last.ev) else [])
  }

  // ---------------------------------------------------------------- history

  /** One step adds to the two streams exactly what it took and returned. */
  lemma StepHistory(c: Conn, peer: Conn, ev: Event, c': Conn)
    requires Step(c, peer, ev, c') && Extends(c, c') && c.rx.read <= |c.rx.rcvd|
    ensures c'.tx.written == c.tx.written + Accepted(ev)
    ensures c'.rx.read <= |c'.rx.rcvd|
    ensures c'.rx.rcvd[..c'.rx.read] == c.rx.rcvd[..c.rx.read] + Returned(ev)
  {
    hide Proper, Exhausted, Contiguous, Timed, Retransmits, BackedOff, IsReset, InputSpec, Extends, Within;
    HistoryExtends(c, c');
    if ev.Deliver? && c.st != Closed {
      InputHistory(c, peer.sent[ev.i].seg, ev.now, ev.backlogFull, c');
    } else if ev.Read? {
      assert c'.rx.rcvd[..c'.rx.read] == c.rx.rcvd[..c.rx.read] + ev.bytes;
    }
  }

  lemma HistoryExtends(c: Conn, c': Conn)
    requires Extends(c, c')
    ensures c.rx.rcvd <= c'.rx.rcvd
  {
  }

  lemma InputHistory(c: Conn, seg: Segment, now: nat, backlogFull: bool, c': Conn)
    requires 0 <= c.rx.Window() && InputSpec(c, seg, now, backlogFull, c') && c.rx.rcvd <= c'.rx.rcvd
    ensures c'.tx.written == c.tx.written && c'.rx.read == c.rx.read
  {
    hide Acceptable, Unwrap, ProcessedSpec, Build;
    if c.st != SynSent && Processed(c, seg) {
      ProcessedHistory(c, seg, now, backlogFull, c');
    }
  }

  lemma ProcessedHistory(c: Conn, seg: Segment, now: nat, backlogFull: bool, c': Conn)
    requires ProcessedSpec(c, seg, now, backlogFull, c')
    ensures c'.tx.written == c.tx.written && c'.rx.read == c.rx.read
  {
    hide Unwrap, Windowed, Rescheduled, Owing, WaitSet, Retransmits, IsThird, Within, Ends, Receive, StateOf, IsReset;
    ReceiveKeepsRead(c.rx, SegPos(c, seg), seg.data);
  }

  lemma ReceiveKeepsRead(r: Rx, pos: int, data: seq<byte>)
    ensures Receive(r, pos, data).read == r.read
  {
  }

  /** At every point of a run, the state of an endpoint is what its application calls have made it. */
  lemma {:induction false} RunHistory(run: seq<System>, acts: seq<Action>, i: nat, atA: bool)
    requires IsRun(run, acts) && i < |run|
    ensures var c := Endpoint(run[i], atA);
      && c.tx.written == Written(acts[..i], atA)
      && c.rx.read <= |c.rx.rcvd| && c.rx.rcvd[..c.rx.read] == Read(acts[..i], atA)
    decreases i
  {
    hide Inv, Extends, Step;
    if i > 0 {
      RunHistory(run, acts, i - 1, atA);
      var act := acts[i - 1];
      assert Next(run[i - 1], act.atA, act.ev, run[i - 1 + 1]);
      assert acts[..i][..i - 1] == acts[..i - 1];
      if act.atA == atA {
        StepHistory(Endpoint(run[i - 1], atA), Endpoint(run[i - 1], !atA), act.ev, Endpoint(run[i], atA));
      }
    }
  }

  // ---------------------------------------------------------------- end-to-end theorems

  /**
   * Stream safety. Whatever the network loses, duplicates, delays or reorders, and across any number
   * of wrap-arounds of the sequence numbers, what one side reads is a prefix of what the other wrote.
   */
  lemma StreamSafety(run: seq<System>, acts: seq<Action>, i: nat, atA: bool)
    requires IsRun(run, acts) && i < |run|
    ensures Read(acts[..i], atA) <= Written(acts[..i], !atA)
  {
    hide IsRun, Inv, Written, Read;
    RunKeepsInv(run, acts, i);
    RunHistory(run, acts, i, atA);
    RunHistory(run, acts, i, !atA);
  }

  /** End of stream is seen only after every byte the peer ever wrote has been returned. */
  lemma EndOfStream(run: seq<System>, acts: seq<Action>, i: nat, atA: bool)
    requires IsRun(run, acts) && i < |run|
    requires var c := Endpoint(run[i], atA); c.rx.eof && c.rx.Unread() == []
    ensures Read(acts[..i], atA) == Written(acts[..i], !atA) && Endpoint(run[i], !atA).tx.closed
  {
    hide IsRun, Core, Written, Read;
    RunKeepsInv(run, acts, i);
    RunHistory(run, acts, i, atA);
    RunHistory(run, acts, i, !atA);
    var c, peer := Endpoint(run[i], atA), Endpoint(run[i], !atA);
    CoreClosed(peer);
    assert c.rx.rcvd[..c.rx.read] == c.rx.rcvd;
  }

  lemma CoreClosed(c: Conn)
    requires Core(c)
    ensures c.tx.finSent ==> c.tx.closed
  {
  }

  /** Every byte written, and our FIN, are acknowledged. */
  predicate AllAcknowledged(t: Tx) { t.finSent && t.una == |t.written| + 2 && t.Unacked() == [] }

  /** Graceful close loses nothing: in FIN-WAIT-2 and TIME-WAIT the peer has received the whole stream. */
  lemma GracefulClose(run: seq<System>, acts: seq<Action>, i: nat, atA: bool)
    requires IsRun(run, acts) && i < |run|
    requires var st := Endpoint(run[i], atA).st; st == FinWait2 || st == TimeWait
    ensures AllAcknowledged(Endpoint(run[i], atA).tx)
    ensures var peer := Endpoint(run[i], !atA); peer.rx.eof && peer.rx.rcvd == Written(acts[..i], atA)
  {
    hide IsRun, LogInv, ReceiveInv;
    RunKeepsInv(run, acts, i);
    RunHistory(run, acts, i, atA);
  }

  /** A connection freed from LAST-ACK by a segment that is not a RST has had everything acknowledged. */
  lemma LastAckClose(run: seq<System>, acts: seq<Action>, i: nat, atA: bool)
    requires IsRun(run, acts) && i < |acts| && acts[i].atA == atA && acts[i].ev.Deliver?
    requires Endpoint(run[i], atA).st == LastAck && Endpoint(run[i + 1], atA).st == Closed
    requires acts[i].ev.i < |Endpoint(run[i], !atA).sent| && !Endpoint(run[i], !atA).sent[acts[i].ev.i].seg.rst
    ensures AllAcknowledged(Endpoint(run[i + 1], atA).tx)
    ensures var peer := Endpoint(run[i + 1], !atA); peer.rx.eof && peer.rx.rcvd == Written(acts[..i + 1], atA)
  {
    hide Init, LogInv, ReceiveInv, Extends, RxAfter, Acceptable, Fresh, Written;
    RunKeepsInv(run, acts, i);
    RunKeepsInv(run, acts, i + 1);
    RunHistory(run, acts, i + 1, atA);
    assert Next(run[i], acts[i].atA, acts[i].ev, run[i + 1]);
  }

  // ---------------------------------------------------------------- one endpoint over a run

  /** An endpoint only ever moves forward. */
  lemma {:induction false} RunExtends(run: seq<System>, acts: seq<Action>, i: nat, j: nat, atA: bool)
    requires IsRun(run, acts) && i <= j < |run|
    ensures Extends(Endpoint(run[i], atA), Endpoint(run[j], atA))
    decreases j
  {
    hide Inv, Step, Init;
    if i < j {
      RunExtends(run, acts, i, j - 1, atA);
      assert Next(run[j - 1], acts[j - 1].atA, acts[j - 1].ev, run[j - 1 + 1]);
    }
  }

  /**
   * The right edge of the receive window never moves left, and no segment ever sent has promised more
   * than the edge of any later state, so a byte once inside the window stays inside.
   */
  lemma RightEdgeNeverShrinks(run: seq<System>, acts: seq<Action>, i: nat, j: nat, atA: bool, k: nat)
    requires IsRun(run, acts) && i <= j < |run|
    ensures Endpoint(run[i], atA).rx.RightEdge() <= Endpoint(run[j], atA).rx.RightEdge()
    ensures var c, c' := Endpoint(run[i], atA), Endpoint(run[j], atA);
      k < |c.sent| && c.sent[k].seg.acks && !c.sent[k].seg.rst ==>
        c.sent[k].ackPos + c.sent[k].seg.wnd <= c.rx.RightEdge() <= c'.rx.RightEdge()
  {
    hide IsRun, SendInv, ReceiveInv, StateInv, Link;
    RunExtends(run, acts, i, j, atA);
    RunKeepsInv(run, acts, i);
    var c := Endpoint(run[i], atA);
    if k < |c.sent| {
      assert Faithful(c, c.sent[k]);
    }
  }

  /** Expiries and retries go together until an acknowledgment makes progress. */
  lemma StepTimer(c: Conn, peer: Conn, ev: Event, c': Conn)
    requires Step(c, peer, ev, c') && c'.st != Closed && c'.tx.una == c.tx.una && (c.st == SynSent ==> c.tx.una == 0)
    ensures c'.pace.fires - c.pace.fires == c'.pace.rtx - c.pace.rtx
  {
    hide InputSpec, Local;
    if !ev.Deliver? {
      LocalTimer(c, ev, c');
    } else if c.st != Closed {
      InputTimer(c, peer.sent[ev.i].seg, ev.now, ev.backlogFull, c');
    }
  }

  lemma LocalTimer(c: Conn, ev: Event, c': Conn)
    requires !ev.Deliver? && Local(c, ev, c') && c'.st != Closed
    ensures c'.pace.fires - c.pace.fires == c'.pace.rtx - c.pace.rtx
  {
    hide Proper, Exhausted, Contiguous, Timed, Retransmits, IsReset, Within;
  }

  lemma InputTimer(c: Conn, seg: Segment, now: nat, backlogFull: bool, c': Conn)
    requires 0 <= c.rx.Window() && InputSpec(c, seg, now, backlogFull, c')
    requires c'.st != Closed && c'.tx.una == c.tx.una && (c.st == SynSent ==> c.tx.una == 0)
    ensures c'.pace.fires - c.pace.fires == c'.pace.rtx - c.pace.rtx
  {
    hide Acceptable, RxAfter, Unwrap, Windowed, Owing, WaitSet, Retransmits, IsThird, Sampled, Within, Ends, StateOf;
  }

  lemma {:induction false} RunTimer(run: seq<System>, acts: seq<Action>, i: nat, j: nat, atA: bool)
    requires IsRun(run, acts) && i <= j < |run|
    requires Endpoint(run[i], atA).tx.una == Endpoint(run[j], atA).tx.una && Endpoint(run[j], atA).st != Closed
    ensures var c, c' := Endpoint(run[i], atA), Endpoint(run[j], atA);
      c'.pace.fires - c.pace.fires == c'.pace.rtx - c.pace.rtx
    decreases j
  {
    hide Core, Step, Init, TxExtends, RxExtends, Link;
    if i < j {
      var act := acts[j - 1];
      var c, d, e := Endpoint(run[i], atA), Endpoint(run[j - 1], atA), Endpoint(run[j], atA);
      RunExtends(run, acts, i, j - 1, atA);
      RunExtends(run, acts, j - 1, j, atA);
      UnaGrows(c, d);
      UnaGrows(d, e);
      RunTimer(run, acts, i, j - 1, atA);
      RunKeepsInv(run, acts, j - 1);
      assert Next(run[j - 1], act.atA, act.ev, run[j - 1 + 1]);
      CoreTimer(d);
      if act.atA == atA {
        StepTimer(d, Endpoint(run[j - 1], !atA), act.ev, e);
      }
    }
  }

  lemma UnaGrows(c: Conn, c': Conn)
    requires Extends(c, c')
    ensures c.tx.una <= c'.tx.una
  {
  }

  lemma CoreTimer(c: Conn)
    requires Core(c)
    ensures c.st != Closed ==> TimerInv(c.tx, c.pace) && (c.st == SynSent ==> c.tx.una == 0)
  {
  }

  /**
   * Timer discipline: a live connection has its retransmission timer running exactly while something
   * is unacknowledged, and it sees at most ten expiries without progress.
   */
  lemma TimerDiscipline(run: seq<System>, acts: seq<Action>, i: nat, j: nat, atA: bool)
    requires IsRun(run, acts) && i <= j < |run|
    requires Endpoint(run[i], atA).tx.una == Endpoint(run[j], atA).tx.una && Endpoint(run[j], atA).st != Closed
    ensures var c, c' := Endpoint(run[i], atA), Endpoint(run[j], atA);
      && (c'.pace.rtoAt != 0 <==> c'.tx.una != c'.tx.nxt)
      && c'.pace.fires - c.pace.fires <= MAX_RTX
  {
    hide IsRun, Core, Link;
    RunKeepsInv(run, acts, j);
    CoreTimer(Endpoint(run[j], atA));
    RunTimer(run, acts, i, j, atA);
  }

  /** After ten expiries without progress the next one sends a RST and ends the connection. */
  lemma EleventhExpiryEnds(run: seq<System>, acts: seq<Action>, i: nat, j: nat, atA: bool)
    requires IsRun(run, acts) && i <= j < |acts| && acts[j].atA == atA && acts[j].ev.Tick?
    requires var c, d := Endpoint(run[i], atA), Endpoint(run[j], atA);
      && c.tx.una == d.tx.una && d.st != Closed && d.pace.fires - c.pace.fires >= MAX_RTX
      && d.pace.rtoAt != 0 && acts[j].ev.now >= d.pace.rtoAt
    ensures var d, d' := Endpoint(run[j], atA), Endpoint(run[j + 1], atA);
      d'.st == Closed && |d'.sent| == |d.sent| + 1 && IsReset(d, d'.sent[|d.sent|])
  {
    hide Extends, Link, Init, LogInv, ReceiveInv, SendInv, IsReset;
    var d := Endpoint(run[j], atA);
    RunKeepsInv(run, acts, j);
    RunTimer(run, acts, i, j, atA);
    assert Next(run[j], acts[j].atA, acts[j].ev, run[j + 1]);
  }

  // ---------------------------------------------------------------- progress

  /**
   * No stall: whenever something is left to deliver in a state that can still send, either the
   * retransmission timer runs or the next tick sends a probe, unless the 32-bit congestion window
   * has wrapped around to exactly 0.
   */
  lemma NoStall(run: seq<System>, acts: seq<Action>, i: nat, atA: bool)
    requires IsRun(run, acts) && i < |run|
    ensures var c := Endpoint(run[i], atA);
      Sending(c.st) && (c.tx.Unacked() != [] || c.tx.closed) && c.pace.cwnd != 0 ==> c.pace.rtoAt != 0 || ProbeDue(c)
  {
    hide IsRun, Core, Link;
    RunKeepsInv(run, acts, i);
  }

  /**
   * The one way to stall, exactly: unsent text, nothing in flight, an open peer window, and (hence) a
   * congestion window of 0. `TcpStall` says after which events.
   */
  lemma StallExactly(c: Conn)
    requires Inv(c)
    ensures Stalled(c) <==> Sending(c.st) && c.tx.Unacked() != [] && c.tx.una == c.tx.nxt && c.pace.sndWnd != 0
    ensures Stalled(c) ==> c.pace.cwnd == 0
  {
    if c.st != Closed {
      CoreTimer(c);
    }
  }

  /** With something left to deliver and no timer, the next tick sends the first unsent byte, and the timer runs. */
  lemma ProbeIsSent(run: seq<System>, acts: seq<Action>, j: nat, atA: bool)
    requires IsRun(run, acts) && j < |acts| && acts[j].atA == atA && acts[j].ev.Tick?
    requires var c := Endpoint(run[j], atA);
      Sending(c.st) && (c.tx.Unacked() != [] || c.tx.closed) && c.pace.cwnd != 0 && c.pace.rtoAt == 0
    ensures var c, c' := Endpoint(run[j], atA), Endpoint(run[j + 1], atA);
      && |c'.sent| == |c.sent| + 1 && c'.sent[|c.sent|].pos == c.tx.nxt
      && c'.sent[|c.sent|].seg.data == c.tx.Unacked()[..1] && |c'.sent[|c.sent|].seg.data| == 1
      && c'.tx.nxt == c.tx.nxt + 1 && c'.pace.rtoAt != 0
  {
    hide Extends, Link, Init, LogInv, ReceiveInv;
    NoStall(run, acts, j, atA);
    RunKeepsInv(run, acts, j);
    RunKeepsInv(run, acts, j + 1);
    assert Next(run[j], acts[j].atA, acts[j].ev, run[j + 1]);
  }

  // ---------------------------------------------------------------- the state diagram

  /** The arcs of the connection state diagram, section 3.3.2 of RFC 9293, from an open request on. */
  predicate Arc(s: State, t: State) {
    match s
    case SynSent => t == SynRcvd || t == Established || t == Closed
    case SynRcvd => t == Established
    case Established => t == FinWait1 || t == CloseWait
    case FinWait1 => t == FinWait2 || t == Closing
    case FinWait2 => t == TimeWait
    case CloseWait => t == LastAck
    case Closing => t == TimeWait
    case LastAck => t == Closed
    case TimeWait => t == Closed
    case Closed => false
  }

  /** At most two arcs, as when one segment carries both an acknowledgment and a FIN. */
  predicate Follows(s: State, t: State) {
    s == t || Arc(s, t) || exists m :: Arc(s, m) && Arc(m, t)
  }

  /** The two halves of a live connection after one step. */
  lemma StepHalves(c: Conn, peer: Conn, ev: Event, c': Conn)
    requires Step(c, peer, ev, c') && c.st != Closed && c'.st != Closed && StateInv(c)
    ensures ev.Close? || c'.tx.closed == c.tx.closed
    ensures c'.tx.closed == c.tx.closed ==> c'.tx.closedFirst == c.tx.closedFirst
    ensures !ev.Deliver? ==> c'.tx.una == c.tx.una && c'.rx.eof == c.rx.eof && c'.synced == c.synced
    ensures ev.Close? && c'.tx.closed != c.tx.closed ==>
      (c.st == Established || c.st == CloseWait) && c'.tx.closedFirst == !c.rx.eof
  {
    hide Receive, Acceptable, Contiguous, Proper, Exhausted, Timed, Retransmits, BackedOff, IsReset, Rescheduled, Owing;
    hide Windowed, WaitSet, IsThird, Within, Unwrap;
    match ev
    case Write(data, n, now) =>
    case Read(cap, bytes) =>
    case Close(now) =>
    case Abort =>
    case Nagle(off) =>
    case Tick(now) =>
    case Deliver(i, now, backlogFull) =>
  }

  /** Every step of every run follows the diagram, or resets the connection. */
  lemma FollowsDiagram(run: seq<System>, acts: seq<Action>, i: nat, atA: bool)
    requires IsRun(run, acts) && i < |acts|
    ensures var s, t := Endpoint(run[i], atA).st, Endpoint(run[i + 1], atA).st; t == Closed || Follows(s, t)
  {
    hide Init, LogInv, ReceiveInv, TimerInv, Link, Step, Follows;
    RunKeepsInv(run, acts, i);
    RunKeepsInv(run, acts, i + 1);
    RunExtends(run, acts, i, i + 1, atA);
    var act := acts[i];
    assert Next(run[i], act.atA, act.ev, run[i + 1]);
    var c, c' := Endpoint(run[i], atA), Endpoint(run[i + 1], atA);
    if act.atA == atA && c'.st != Closed {
      StepHalves(c, Endpoint(run[i], !atA), act.ev, c');
      StateMoves(c, act.ev, c');
    } else {
      FollowsItself(c.st);
    }
  }

  lemma FollowsItself(s: State)
    ensures Follows(s, s)
  {
  }

  lemma StateMoves(c: Conn, ev: Event, c': Conn)
    requires c.st != Closed && c'.st != Closed && StateInv(c) && StateInv(c') && Extends(c, c')
    requires SendInv(c.tx) && SendInv(c'.tx)
    requires ev.Close? || c'.tx.closed == c.tx.closed
    requires c'.tx.closed == c.tx.closed ==> c'.tx.closedFirst == c.tx.closedFirst
    requires !ev.Deliver? ==> c'.tx.una == c.tx.una && c'.rx.eof == c.rx.eof && c'.synced == c.synced
    requires ev.Close? && c'.tx.closed != c.tx.closed ==>
      (c.st == Established || c.st == CloseWait) && c'.tx.closedFirst == !c.rx.eof
    ensures Follows(c.st, c'.st)
  {
    assert Arc(SynSent, Established) && Arc(SynRcvd, Established) && Arc(Established, CloseWait);
    assert Arc(FinWait1, FinWait2) && Arc(FinWait2, TimeWait) && Arc(Established, FinWait1);
  }

  // ---------------------------------------------------------------- CLOSING before our FIN is out

  /** What ends a connection in CLOSING: an abort, the eleventh expiry, or a RST of the peer. */
  predicate EndsClosing(c: Conn, peer: Conn, ev: Event) {
    match ev
    case Abort => true
    case Tick(now) => c.pace.rtx == MAX_RTX && c.pace.rtoAt != 0 && now >= c.pace.rtoAt
    case Deliver(i, _, _) =>
      && i < |peer.sent| && peer.sent[i].seg.rst
      && Acceptable(c, peer.sent[i].seg) && SegPos(c, peer.sent[i].seg) == c.rx.RcvNxt()
    case _ => false
  }

  /** Sending has stopped: CLOSING with our FIN unsent, or what is left of such a connection. */
  predicate Mute(c: Conn) { (c.st == Closing || c.st == Closed) && !c.tx.finSent }

  lemma MuteStep(c: Conn, peer: Conn, ev: Event, c': Conn)
    requires Inv(c) && Inv(c') && Extends(c, c') && Step(c, peer, ev, c') && Mute(c)
    ensures Mute(c') && c'.tx.nxt == c.tx.nxt && c'.tx.written == c.tx.written
    ensures c.st == Closing ==> (c'.st == Closed <==> EndsClosing(c, peer, ev))
  {
    hide LogInv, ReceiveInv, TimerInv, Unwrap, Acceptable, Windowed, Contiguous, RxAfter, IsReset, Rescheduled, Owing;
    hide OwedInv, KarnInv, Proper, Exhausted, Timed, Retransmits, BackedOff, WaitSet, IsThird, LogExtends;
    if ev.Deliver? {
    } else {
    }
  }

  /**
   * A FIN that arrives while text or our own FIN waits for the window leads to CLOSING, where the source no
   * longer sends: from then on nothing past SND.NXT ever goes out, the FIN never does, and the peer never
   * sees the end of the stream. The connection ends only as `EndsClosing` says.
   */
  lemma {:induction false} ClosingIsMute(run: seq<System>, acts: seq<Action>, i: nat, j: nat, atA: bool, k: nat)
    requires IsRun(run, acts) && i <= j < |run|
    requires Endpoint(run[i], atA).st == Closing && !Endpoint(run[i], atA).tx.finSent
    ensures var c, c' := Endpoint(run[i], atA), Endpoint(run[j], atA);
      && Mute(c') && c'.tx.nxt == c.tx.nxt && c'.tx.written == c.tx.written && !Endpoint(run[j], !atA).rx.eof
      && (k < |c'.sent| && !c'.sent[k].seg.rst ==>
            !c'.sent[k].seg.fin && c'.sent[k].pos + c'.sent[k].seg.SeqLen() <= c.tx.nxt)
    decreases j
  {
    hide Step, SendInv, ReceiveInv, StateInv, TimerInv, TrueAck, Slice, Wrap, Init, Extends, Stalled;
    RunKeepsInv(run, acts, j);
    var c' := Endpoint(run[j], atA);
    if i < j {
      ClosingIsMute(run, acts, i, j - 1, atA, 0);
      RunKeepsInv(run, acts, j - 1);
      RunExtends(run, acts, j - 1, j, atA);
      var act := acts[j - 1];
      assert Next(run[j - 1], act.atA, act.ev, run[j - 1 + 1]);
      if act.atA == atA {
        MuteStep(Endpoint(run[j - 1], atA), Endpoint(run[j - 1], !atA), act.ev, c');
      }
    }
    if k < |c'.sent| {
      assert Faithful(c', c'.sent[k]);
    }
  }

  /** And each step of it that ends the connection is one of those. */
  lemma ClosingEnds(run: seq<System>, acts: seq<Action>, j: nat, atA: bool)
    requires IsRun(run, acts) && j < |acts| && acts[j].atA == atA
    requires Endpoint(run[j], atA).st == Closing && !Endpoint(run[j], atA).tx.finSent
    ensures var s, s' := run[j], run[j + 1];
      Endpoint(s', atA).st == Closed <==> EndsClosing(Endpoint(s, atA), Endpoint(s, !atA), acts[j].ev)
  {
    hide Step, Core, Init, Extends, EndsClosing, Link;
    RunKeepsInv(run, acts, j);
    RunKeepsInv(run, acts, j + 1);
    RunExtends(run, acts, j, j + 1, atA);
    assert Next(run[j], acts[j].atA, acts[j].ev, run[j + 1]);
    MuteStep(Endpoint(run[j], atA), Endpoint(run[j], !atA), acts[j].ev, Endpoint(run[j + 1], atA));
  }

  // ---------------------------------------------------------------- a RST is heeded

  /**
   * The RST by which the other side refuses a segment is accepted by the connection that sent it, and ends it: one
   * in answer to our SYN always, a later one as long as nothing has arrived since.
   */
  lemma ResetIsHeeded(c: Conn, k: nat, now: nat, backlogFull: bool, c': Conn)
    requires Inv(c) && c.st != Closed && k < |c.sent| && !c.sent[k].seg.rst
    requires if c.st == SynSent then c.sent[k].seg.syn else Tells(c.sent[k]) && c.sent[k].ackPos == c.rx.RcvNxt()
    requires 0 <= c.rx.Window() && InputSpec(c, ResetFor(c.sent[k].seg), now, backlogFull, c')
    ensures c' == Freed(c)
  {
    hide OwedInv, KarnInv, ReceiveInv, Wrap, Unwrap;
    var e := c.sent[k];
    assert Faithful(c, e);
    if c.st == SynSent {
      AddExact(c.iss, 0, 1);
      UnwrapExact(c.iss, c.tx.nxt, 1);
    } else {
      UnwrapExact(c.irs, c.rx.RcvNxt(), c.rx.RcvNxt());
    }
  }

  // ---------------------------------------------------------------- a FIN repeated in TIME-WAIT

  /** A FIN that comes again in TIME-WAIT fails the acceptability test: it is acknowledged and changes nothing else. */
  lemma RepeatedFinRejected(run: seq<System>, acts: seq<Action>, j: nat, atA: bool)
    requires IsRun(run, acts) && j < |acts| && acts[j].atA == atA && acts[j].ev.Deliver?
    requires Endpoint(run[j], atA).st == TimeWait && acts[j].ev.i < |Endpoint(run[j], !atA).sent|
    requires var seg := Endpoint(run[j], !atA).sent[acts[j].ev.i].seg; seg.fin && !seg.rst
    ensures var c, c' := Endpoint(run[j], atA), Endpoint(run[j + 1], atA);
      && !Acceptable(c, Endpoint(run[j], !atA).sent[acts[j].ev.i].seg)
      && 0 <= c.rx.Window() && c' == Acked(c)
  {
    hide Extends, Init, ReceiveInv, TimerInv, Wrap, Unwrap, Agrees;
    RunKeepsInv(run, acts, j);
    var c, peer := Endpoint(run[j], atA), Endpoint(run[j], !atA);
    var e := peer.sent[acts[j].ev.i];
    assert Next(run[j], acts[j].atA, acts[j].ev, run[j + 1]);
    assert Faithful(peer, e);
    ReadBack(peer, c, e);
  }
}
