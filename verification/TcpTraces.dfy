/**
 * One connection that faces any peer at all, well behaved or not: what its segments, acknowledgments, timers and
 * windows obey over everything that can happen to it.
 */
module TcpTraces {
  import opened SeqSpace
  import opened ByteRings
  import opened TcpSpec
  import opened TcpEvents
  import opened TcpSteps
  import opened TcpSystem
  import opened TcpTheorems

  /** A call of the application or the clock, or the arrival of any segment. */
  datatype Stimulus = Own(ev: Event) | Comes(seg: Segment, now: nat, backlogFull: bool)

  predicate Moves(c: Conn, s: Stimulus, c': Conn) {
    && Inv(c') && Extends(c, c') && 0 <= c.rx.Window()
    && match s
       case Own(ev) => !ev.Deliver? && Local(c, ev, c')
       case Comes(seg, now, backlogFull) =>
         if c.st == Closed then c' == Refused(c, seg) else InputSpec(c, seg, now, backlogFull, c')
  }

  /** A connection from its opening on; `syn` is the MSS option of the SYN that a passive open has taken. */
  datatype Trace = Trace(conns: seq<Conn>, stims: seq<Stimulus>, syn: nat) {
    predicate Valid() {
      && |conns| == |stims| + 1 && Opened(conns[0])
      && (conns[0].synced ==> conns[0].pace.flow.mss == EffectiveMss(syn))
      && forall i :: 0 <= i < |stims| ==> Moves(conns[i], stims[i], conns[i + 1])
    }
  }

  lemma MoveAt(tr: Trace, i: nat)
    requires tr.Valid() && i < |tr.stims|
    ensures Moves(tr.conns[i], tr.stims[i], tr.conns[i + 1])
  {
    hide Moves, Opened;
  }

  lemma TraceInv(tr: Trace, i: nat)
    requires tr.Valid() && i < |tr.conns|
    ensures Inv(tr.conns[i])
  {
    hide Inv, Extends, Opened;
    if i == 0 {
      OpenedInv(tr.conns[0]);
    } else {
      assert Moves(tr.conns[i - 1], tr.stims[i - 1], tr.conns[i - 1 + 1]);
    }
  }

  lemma {:induction false} TraceExtends(tr: Trace, i: nat, j: nat)
    requires tr.Valid() && i <= j < |tr.conns|
    ensures Extends(tr.conns[i], tr.conns[j])
    decreases j
  {
    hide Inv, Extends, Opened, Local, InputSpec;
    if i == j {
      ExtendsRefl(tr.conns[i]);
    } else {
      TraceExtends(tr, i, j - 1);
      assert Moves(tr.conns[j - 1], tr.stims[j - 1], tr.conns[j - 1 + 1]);
      ExtendsTrans(tr.conns[i], tr.conns[j - 1], tr.conns[j]);
    }
  }

  // ---------------------------------------------------------------- the peer's segment size

  /** The SYN taken up to state `i` announced `m` (0 for no option). */
  predicate TookMss(tr: Trace, i: nat, m: nat)
    requires tr.Valid() && i < |tr.conns|
  {
    || (tr.conns[0].synced && m == tr.syn)
    || exists k :: 0 <= k < i && !tr.conns[k].synced && tr.conns[k + 1].synced && TakesSyn(tr.stims[k], m)
  }

  predicate TakesSyn(s: Stimulus, m: nat) { s.Comes? && s.seg.syn && s.seg.mss == m }

  lemma StepMss(c: Conn, s: Stimulus, c': Conn)
    requires Inv(c) && Moves(c, s, c') && !c.synced && c'.synced
    ensures s.Comes? && TakesSyn(s, s.seg.mss) && c'.pace.flow.mss == EffectiveMss(s.seg.mss)
  {
    hide LogInv, OwedInv, KarnInv, ReceiveInv, Sends, Exhausted, TickSpec, ProcessedSpec, Unwrap, Acceptable;
    hide Build, Extends;
    if s.Own? && s.ev.Tick? {
      TickSyncs(c, s.ev.now, c');
    }
  }

  lemma TickSyncs(c: Conn, now: nat, c': Conn)
    requires 0 <= c.rx.Window() && FlowInv(c.pace.flow) && TickSpec(c, now, c')
    ensures c'.synced == c.synced
  {
    hide Retransmits, BackedOff, IsReset, Build;
  }

  lemma MssStays(c: Conn, c': Conn)
    requires Extends(c, c') && c.synced
    ensures c'.synced && c'.pace.flow.mss == c.pace.flow.mss
  {
  }

  /** The segment size in use is that of the SYN taken. */
  lemma {:induction false} MssTaken(tr: Trace, i: nat) returns (m: nat)
    requires tr.Valid() && i < |tr.conns| && tr.conns[i].synced
    ensures TookMss(tr, i, m) && tr.conns[i].pace.flow.mss == EffectiveMss(m)
    decreases i
  {
    hide Moves, Opened, Extends, Inv;
    if i == 0 {
      m := tr.syn;
    } else {
      var c, s, c' := tr.conns[i - 1], tr.stims[i - 1], tr.conns[i];
      MoveAt(tr, i - 1);
      if c.synced {
        m := MssTaken(tr, i - 1);
        TraceExtends(tr, i - 1, i);
        MssStays(c, c');
      } else {
        TraceInv(tr, i - 1);
        StepMss(c, s, c');
        m := s.seg.mss;
      }
    }
  }

  lemma TextIsSynced(c: Conn, k: nat)
    requires Inv(c) && k < |c.sent| && c.sent[k].seg.data != []
    ensures c.synced && |c.sent[k].seg.data| <= c.pace.flow.mss
  {
    hide OwedInv, KarnInv, ReceiveInv;
    assert Faithful(c, c.sent[k]);
  }

  /**
   * No text segment ever sent, first or again, is longer than the MSS option of the peer's SYN, or than 536 bytes
   * when it had none; nor longer than our own.
   */
  lemma SegmentsFit(tr: Trace, i: nat, k: nat) returns (m: nat)
    requires tr.Valid() && i < |tr.conns| && k < |tr.conns[i].sent| && tr.conns[i].sent[k].seg.data != []
    ensures TookMss(tr, i, m)
    ensures |tr.conns[i].sent[k].seg.data| <= (if m == 0 then 536 else m) && |tr.conns[i].sent[k].seg.data| <= OUR_MSS
  {
    hide Trace.Valid, TookMss, Inv;
    TraceInv(tr, i);
    TextIsSynced(tr.conns[i], k);
    m := MssTaken(tr, i);
  }

  // ---------------------------------------------------------------- the peer's window

  /** The segment is processed and its acknowledgment lies in the send window, by the 32-bit test. */
  predicate Counts(c: Conn, s: Stimulus) {
    && s.Comes? && Processed(c, s.seg)
    && (AckPos(c, s.seg) >= c.tx.una || AckPos(c, s.seg) == c.tx.una - HALF)
  }

  /** The window of `c` is the one `seg` told. */
  predicate Follows(c: Conn, seg: Segment) {
    c.pace.sndWnd == seg.wnd && c.pace.flow.wl1 == seg.seqno && c.pace.flow.wl2 == seg.ackno
  }

  predicate Conversing(c: Conn) { c.st != Closed && !Handshaking(c.st) }

  lemma FirstWindow(c: Conn, s: Stimulus, c': Conn)
    requires Inv(c) && Moves(c, s, c') && Handshaking(c.st) && Conversing(c')
    ensures s.Comes? && Follows(c', s.seg)
  {
    hide LogInv, OwedInv, KarnInv, ReceiveInv, Sends, Exhausted, TickSpec, Unwrap, Acceptable, Build, Extends;
    hide Rescheduled, Owing, WaitSet, Driven, CwndAfter, RxAfter, Retransmits, IsThird, Within;
    if s.Own? && s.ev.Tick? {
      TickStates(c, s.ev.now, c');
    }
  }

  lemma TickStates(c: Conn, now: nat, c': Conn)
    requires 0 <= c.rx.Window() && FlowInv(c.pace.flow) && TickSpec(c, now, c')
    ensures c'.st == c.st || c'.st == Closed
    ensures c'.st != Closed ==>
      && c'.pace.sndWnd == c.pace.sndWnd && c'.pace.flow.wl1 == c.pace.flow.wl1 && c'.pace.flow.wl2 == c.pace.flow.wl2
      && c'.pace.waitUntil == c.pace.waitUntil
  {
    hide Retransmits, IsReset, Build;
  }

  lemma NextWindow(c: Conn, s: Stimulus, c': Conn)
    requires Inv(c) && Moves(c, s, c') && Conversing(c) && Conversing(c')
    ensures if Counts(c, s) && Newer(c.pace.flow, s.seg) then Follows(c', s.seg)
      else c'.pace.sndWnd == c.pace.sndWnd && c'.pace.flow.wl1 == c.pace.flow.wl1 && c'.pace.flow.wl2 == c.pace.flow.wl2
  {
    hide LogInv, OwedInv, KarnInv, ReceiveInv, Contiguous, Proper, Timed, Started, Exhausted, TickSpec, Unwrap;
    hide Acceptable;
    hide Rescheduled, Owing, WaitSet, Driven, CwndAfter, RxAfter, Retransmits, IsThird, Within, Build, Extends, Newer;
    if s.Own? && s.ev.Tick? {
      TickStates(c, s.ev.now, c');
    }
  }

  lemma HandshakeFirst(c: Conn, c': Conn)
    requires Extends(c, c') && c'.st != Closed
    ensures c.st != Closed
  {
  }

  /**
   * SND.WND is always that of the newest segment: the one that completed the handshake, or a later one that counts
   * and was newer than all before; and none that counted since was newer.
   */
  lemma {:induction false} WindowIsNewest(tr: Trace, i: nat) returns (k: nat)
    requires tr.Valid() && i < |tr.conns| && Conversing(tr.conns[i])
    ensures k < i && tr.stims[k].Comes? && Follows(tr.conns[i], tr.stims[k].seg)
    ensures Handshaking(tr.conns[k].st) || Counts(tr.conns[k], tr.stims[k])
    ensures forall j :: k < j < i && Counts(tr.conns[j], tr.stims[j]) ==>
      !Newer(tr.conns[i].pace.flow, tr.stims[j].seg)
    decreases i
  {
    hide Moves, Extends, Inv, Processed, AckPos, Newer;
    assert i > 0;
    var c, s, c' := tr.conns[i - 1], tr.stims[i - 1], tr.conns[i];
    MoveAt(tr, i - 1);
    TraceInv(tr, i - 1);
    TraceExtends(tr, i - 1, i);
    HandshakeFirst(c, c');
    if Handshaking(c.st) {
      FirstWindow(c, s, c');
      k := i - 1;
    } else {
      NextWindow(c, s, c');
      if Counts(c, s) && Newer(c.pace.flow, s.seg) {
        k := i - 1;
      } else {
        k := WindowIsNewest(tr, i - 1);
        forall j | k < j < i && Counts(tr.conns[j], tr.stims[j])
          ensures !Newer(c'.pace.flow, tr.stims[j].seg)
        {
          SameNewer(c.pace.flow, c'.pace.flow, tr.stims[j].seg);
        }
      }
    }
  }

  lemma SameNewer(f: Flow, f': Flow, seg: Segment)
    requires f'.wl1 == f.wl1 && f'.wl2 == f.wl2
    ensures Newer(f, seg) <==> Newer(f', seg)
  {
  }

  // ---------------------------------------------------------------- TIME-WAIT

  /** The step starts TIME-WAIT, or starts it over. */
  predicate StartsWait(c: Conn, s: Stimulus) {
    s.Comes? && (c.st != TimeWait || (Processed(c, s.seg) && FinAgain(c, s.seg)))
  }

  /** What ends TIME-WAIT: a tick when the time is over, an abort, or a RST at RCV.NXT. */
  predicate EndsWait(c: Conn, s: Stimulus) {
    match s
    case Own(ev) => ev.Abort? || (ev.Tick? && ev.now >= c.pace.waitUntil)
    case Comes(seg, _, _) => seg.rst && Acceptable(c, seg) && SegPos(c, seg) == c.rx.RcvNxt()
  }

  lemma WaitStep(c: Conn, s: Stimulus, c': Conn)
    requires Inv(c) && Moves(c, s, c') && c'.st == TimeWait
    ensures c.st != TimeWait ==> s.Comes?
    ensures c'.pace.waitUntil == if StartsWait(c, s) then s.now + 2 * MSL else c.pace.waitUntil
  {
    hide LogInv, OwedInv, KarnInv, ReceiveInv, Sends, Exhausted, TickSpec, Unwrap, Acceptable, Build, Extends;
    hide Rescheduled, Owing, Driven, Windowed, RxAfter, Retransmits, IsThird, Within;
    if s.Own? {
      OwnStates(c, s.ev, c');
    }
  }

  lemma OwnStates(c: Conn, ev: Event, c': Conn)
    requires !ev.Deliver? && Local(c, ev, c')
    ensures c'.st == TimeWait ==> c.st == TimeWait && c'.pace.waitUntil == c.pace.waitUntil
  {
    hide Contiguous, Proper, Timed, Started, Exhausted, TickSpec, Within, Build;
    if ev.Tick? {
      TickStates(c, ev.now, c');
    }
  }

  lemma WaitEndsIff(c: Conn, s: Stimulus, c': Conn)
    requires Inv(c) && Moves(c, s, c') && c.st == TimeWait
    ensures c'.st == if EndsWait(c, s) then Closed else TimeWait
  {
    hide LogInv, OwedInv, KarnInv, ReceiveInv, Sends, Exhausted, Unwrap, Acceptable, Build, BackedOff;
    hide Rescheduled, Owing, Driven, Windowed, RxAfter, Retransmits, IsThird, Within, WaitSet, IsReset;
    if s.Comes? && Processed(c, s.seg) {
      WaitIsStill(c, s.seg, c');
    }
  }

  lemma WaitIsStill(c: Conn, seg: Segment, c': Conn)
    requires Inv(c) && Inv(c') && Extends(c, c') && c.st == TimeWait && c'.st != Closed
    ensures c'.st == TimeWait
  {
    hide LogInv, OwedInv, KarnInv, ReceiveInv, LogExtends;
  }

  /**
   * TIME-WAIT lasts two segment lifetimes: in that state the deadline is 10 seconds after the last step that
   * started it, and the next step closes the connection exactly as `EndsWait` says.
   */
  lemma {:induction false} WaitLasts(tr: Trace, i: nat) returns (k: nat)
    requires tr.Valid() && i < |tr.conns| && tr.conns[i].st == TimeWait
    ensures k < i && StartsWait(tr.conns[k], tr.stims[k])
    ensures forall j :: k < j < i ==> tr.conns[j].st == TimeWait && !StartsWait(tr.conns[j], tr.stims[j])
    ensures tr.conns[i].pace.waitUntil == tr.stims[k].now + 10000
    ensures i < |tr.stims| ==> tr.conns[i + 1].st == if EndsWait(tr.conns[i], tr.stims[i]) then Closed else TimeWait
    decreases i
  {
    hide Moves, Extends, Inv, StartsWait, EndsWait;
    var c, s, c' := tr.conns[i - 1], tr.stims[i - 1], tr.conns[i];
    MoveAt(tr, i - 1);
    TraceInv(tr, i - 1);
    WaitStep(c, s, c');
    if i < |tr.stims| {
      MoveAt(tr, i);
      TraceInv(tr, i);
      WaitEndsIff(tr.conns[i], tr.stims[i], tr.conns[i + 1]);
    }
    if StartsWait(c, s) {
      k := i - 1;
    } else {
      NoStart(c, s);
      k := WaitLasts(tr, i - 1);
    }
  }

  lemma NoStart(c: Conn, s: Stimulus)
    requires !StartsWait(c, s) && (c.st != TimeWait ==> s.Comes?)
    ensures c.st == TimeWait
  {
  }

  /** What a step of the two-endpoint system is to the endpoint that takes it. */
  function StimulusOf(peer: Conn, ev: Event): Stimulus {
    if ev.Deliver? && ev.i < |peer.sent| then Comes(peer.sent[ev.i].seg, ev.now, ev.backlogFull) else Own(ev)
  }

  lemma StepMoves(c: Conn, peer: Conn, ev: Event, c': Conn)
    requires Inv(c) && Inv(c') && Extends(c, c') && Step(c, peer, ev, c')
    ensures Moves(c, StimulusOf(peer, ev), c')
  {
    hide Inv, Extends, Local, InputSpec;
    WindowOpen(c);
  }

  lemma RunMoves(run: seq<System>, acts: seq<Action>, i: nat, atA: bool)
    requires IsRun(run, acts) && i < |acts|
    ensures Inv(Endpoint(run[i], atA))
    ensures acts[i].atA != atA ==> Endpoint(run[i + 1], atA) == Endpoint(run[i], atA)
    ensures acts[i].atA == atA ==>
      Moves(Endpoint(run[i], atA), StimulusOf(Endpoint(run[i], !atA), acts[i].ev), Endpoint(run[i + 1], atA))
  {
    hide Inv, Extends, Step, Link, Init, Moves;
    RunKeepsInv(run, acts, i);
    assert Next(run[i], acts[i].atA, acts[i].ev, run[i + 1]);
    if acts[i].atA == atA {
      StepMoves(Endpoint(run[i], atA), Endpoint(run[i], !atA), acts[i].ev, Endpoint(run[i + 1], atA));
    }
  }

  /** Between two endpoints of this stack nothing starts TIME-WAIT over: a FIN that comes again is not acceptable. */
  lemma NoRestart(run: seq<System>, acts: seq<Action>, i: nat, atA: bool)
    requires IsRun(run, acts) && i < |acts| && acts[i].atA == atA && Endpoint(run[i], atA).st == TimeWait
    ensures !StartsWait(Endpoint(run[i], atA), StimulusOf(Endpoint(run[i], !atA), acts[i].ev))
  {
    hide Next, Init, Acceptable, SegPos, AckPos;
    var peer, ev := Endpoint(run[i], !atA), acts[i].ev;
    if ev.Deliver? && ev.i < |peer.sent| && peer.sent[ev.i].seg.fin && !peer.sent[ev.i].seg.rst {
      RepeatedFinRejected(run, acts, i, atA);
    }
  }

  lemma {:induction false} WaitInRun(run: seq<System>, acts: seq<Action>, i: nat, j: nat, atA: bool)
    requires IsRun(run, acts) && i < |acts| && acts[i].atA == atA && i < j < |run|
    requires Endpoint(run[i], atA).st != TimeWait && Endpoint(run[i + 1], atA).st == TimeWait
    ensures acts[i].ev.Deliver? && var c := Endpoint(run[j], atA);
      c.st == Closed || (c.st == TimeWait && c.pace.waitUntil == acts[i].ev.now + 2 * MSL)
    decreases j
  {
    hide Next, Init, Inv, Moves, StartsWait, EndsWait, Extends;
    var c, peer, act, c' := Endpoint(run[j - 1], atA), Endpoint(run[j - 1], !atA), acts[j - 1], Endpoint(run[j], atA);
    RunKeepsInv(run, acts, j - 1);
    RunMoves(run, acts, j - 1, atA);
    RunExtends(run, acts, j - 1, j, atA);
    if j == i + 1 {
      WaitStep(c, StimulusOf(peer, act.ev), c');
      Starts(c, StimulusOf(peer, act.ev));
    } else {
      WaitInRun(run, acts, i, j - 1, atA);
      GoneStays(c, c');
      if act.atA == atA && c.st == TimeWait {
        WaitEndsIff(c, StimulusOf(peer, act.ev), c');
        if c'.st == TimeWait {
          NoRestart(run, acts, j - 1, atA);
          WaitStep(c, StimulusOf(peer, act.ev), c');
        }
      }
    }
  }

  lemma Starts(c: Conn, s: Stimulus)
    requires s.Comes? && c.st != TimeWait
    ensures StartsWait(c, s)
  {
  }

  lemma GoneStays(c: Conn, c': Conn)
    requires Extends(c, c')
    ensures c.st == Closed ==> c'.st == Closed
  {
  }

  /**
   * In every run of two endpoints: one that enters TIME-WAIT on an arrival at time `t` is closed by a tick at `now`
   * if and only if `now` is at least `t` plus 10 seconds, and otherwise only by an abort or a RST.
   */
  lemma TimeWaitLasts(run: seq<System>, acts: seq<Action>, i: nat, j: nat, atA: bool)
    requires IsRun(run, acts) && i < |acts| && acts[i].atA == atA && i < j < |acts| && acts[j].atA == atA
    requires Endpoint(run[i], atA).st != TimeWait && Endpoint(run[i + 1], atA).st == TimeWait
    requires Endpoint(run[j], atA).st == TimeWait
    ensures acts[i].ev.Deliver?
    ensures acts[j].ev.Tick? ==> (Endpoint(run[j + 1], atA).st == Closed <==> acts[j].ev.now >= acts[i].ev.now + 10000)
    ensures Endpoint(run[j + 1], atA).st ==
      if EndsWait(Endpoint(run[j], atA), StimulusOf(Endpoint(run[j], !atA), acts[j].ev)) then Closed else TimeWait
  {
    hide Next, Init, Inv, Moves, Acceptable, SegPos;
    WaitInRun(run, acts, i, j, atA);
    RunKeepsInv(run, acts, j);
    RunMoves(run, acts, j, atA);
    WaitEndsIff(Endpoint(run[j], atA), StimulusOf(Endpoint(run[j], !atA), acts[j].ev), Endpoint(run[j + 1], atA));
  }

  // ---------------------------------------------------------------- acknowledgments

  predicate ToldUpTo(c: Conn, pos: nat) { exists i :: 0 <= i < |c.sent| && Tells(c.sent[i]) && pos <= c.sent[i].ackPos }

  /** Everything below `pos` has been acknowledged, or will be at a tick from `limit` on. */
  predicate Pledged(c: Conn, pos: nat, limit: nat) { ToldUpTo(c, pos) || 0 < c.pace.owed.due <= limit }

  lemma SettledIsTold(c: Conn, pos: nat)
    requires Inv(c) && c.st != Closed && c.synced && (c.pace.owed.due == 0 || c.rx.eof) && pos <= c.rx.RcvNxt()
    ensures ToldUpTo(c, pos)
  {
    hide LogInv, KarnInv, ReceiveInv;
    var i :| 0 <= i < |c.sent| && Said(c, i);
    assert Tells(c.sent[i]);
  }

  lemma ToldStays(c: Conn, c': Conn, pos: nat)
    requires ToldUpTo(c, pos) && Extends(c, c')
    ensures ToldUpTo(c', pos)
  {
    var i :| 0 <= i < |c.sent| && Tells(c.sent[i]) && pos <= c.sent[i].ackPos;
    assert c'.sent[i] == c.sent[i];
  }

  lemma ToldNow(c: Conn, c': Conn, pos: nat)
    requires Told(c, c') && Extends(c, c') && pos <= c.rx.RcvNxt()
    ensures ToldUpTo(c', pos)
  {
    var i := |c.sent|;
    assert Offers(c.rx, c'.sent[i]);
  }

  /** How a step leaves what is owed: settled, as it was, or newly owed for the first segment since the last telling. */
  lemma OwedStep(c: Conn, s: Stimulus, c': Conn)
    requires Inv(c) && Moves(c, s, c') && c.st != Closed && c'.st != Closed && c.synced
    ensures c'.pace.owed.due == 0 || c'.pace.owed == c.pace.owed || c.pace.owed.count == 0 || Told(c, c')
  {
    hide LogInv, OwedInv, KarnInv, ReceiveInv, Contiguous, Proper, Timed, Started, Exhausted, TickSpec, Unwrap;
    hide Acceptable;
    hide Rescheduled, WaitSet, Driven, Windowed, RxAfter, Retransmits, IsThird, Within, Build, Extends, Told;
    hide OutOfOrder;
    if s.Own? && s.ev.Tick? {
      TickOwes(c, s.ev.now, c');
    }
  }

  lemma TickOwes(c: Conn, now: nat, c': Conn)
    requires 0 <= c.rx.Window() && FlowInv(c.pace.flow) && TickSpec(c, now, c') && c'.st != Closed && c.synced
    ensures c'.pace.owed.due == 0 || c'.pace.owed == c.pace.owed
    ensures c.st != TimeWait && c.pace.owed.due <= now ==> c'.pace.owed.due == 0
  {
    hide Retransmits, IsReset, Build;
  }

  lemma CountMeansDue(c: Conn)
    requires Inv(c) && c.st != Closed && c.pace.owed.count == 0
    ensures c.pace.owed.due == 0
  {
    hide LogInv, KarnInv, ReceiveInv;
  }

  lemma PledgeStep(c: Conn, s: Stimulus, c': Conn, pos: nat, limit: nat)
    requires Inv(c) && Moves(c, s, c') && c.st != Closed && c'.st != Closed && c.synced
    requires pos <= c.rx.RcvNxt() && Pledged(c, pos, limit)
    ensures Pledged(c', pos, limit)
  {
    hide Inv, Extends, Local, InputSpec, ToldUpTo, Told;
    StillSynced(c, c');
    ReceivesOn(c, c');
    OwedStep(c, s, c');
    if ToldUpTo(c, pos) {
      ToldStays(c, c', pos);
    } else if c'.pace.owed.due == 0 {
      SettledIsTold(c', pos);
    } else if c.pace.owed.count == 0 {
      CountMeansDue(c);
    } else if Told(c, c') {
      ToldNow(c, c', pos);
    }
  }

  lemma ReceivesOn(c: Conn, c': Conn)
    requires Extends(c, c')
    ensures c.rx.RcvNxt() <= c'.rx.RcvNxt()
  {
  }

  /** New text in order is acknowledged at once, or owed within 40 milliseconds. */
  lemma PledgeMade(c: Conn, s: Stimulus, c': Conn)
    requires Inv(c) && Moves(c, s, c') && s.Comes? && Conversing(c) && c'.st != Closed
    requires c'.rx.RcvNxt() > c.rx.RcvNxt()
    ensures Pledged(c', c'.rx.RcvNxt(), s.now + DELACK)
  {
    hide LogInv, OwedInv, KarnInv, ReceiveInv, Unwrap, Acceptable, Rescheduled, WaitSet, Driven, Windowed, RxAfter;
    hide Retransmits, IsThird, Within, Build, Extends, Told, OutOfOrder, ToldUpTo;
    ConversingSynced(c);
    StillSynced(c, c');
    if c'.pace.owed.due == 0 {
      SettledIsTold(c', c'.rx.RcvNxt());
    }
  }

  lemma ConversingSynced(c: Conn)
    requires Inv(c) && Conversing(c)
    ensures c.synced
  {
    hide LogInv, OwedInv, KarnInv, ReceiveInv;
  }

  lemma {:induction false} PledgeKept(tr: Trace, k: nat, i: nat)
    requires tr.Valid() && k < i < |tr.conns| && tr.stims[k].Comes? && Conversing(tr.conns[k])
    requires tr.conns[k + 1].rx.RcvNxt() > tr.conns[k].rx.RcvNxt() && tr.conns[i].st != Closed
    ensures tr.conns[i].synced && tr.conns[k + 1].rx.RcvNxt() <= tr.conns[i].rx.RcvNxt()
    ensures Pledged(tr.conns[i], tr.conns[k + 1].rx.RcvNxt(), tr.stims[k].now + DELACK)
    decreases i
  {
    hide Moves, Extends, Inv, Pledged, Opened;
    TraceExtends(tr, k + 1, i);
    ReceivesOn(tr.conns[k + 1], tr.conns[i]);
    TraceInv(tr, k);
    ConversingSynced(tr.conns[k]);
    TraceExtends(tr, k, i);
    StillSynced(tr.conns[k], tr.conns[i]);
    MoveAt(tr, i - 1);
    TraceInv(tr, i - 1);
    if i == k + 1 {
      PledgeMade(tr.conns[k], tr.stims[k], tr.conns[i]);
    } else {
      TraceExtends(tr, i - 1, i);
      HandshakeFirst(tr.conns[i - 1], tr.conns[i]);
      PledgeKept(tr, k, i - 1);
      PledgeStep(tr.conns[i - 1], tr.stims[i - 1], tr.conns[i], tr.conns[k + 1].rx.RcvNxt(),
                 tr.stims[k].now + DELACK);
    }
  }

  lemma TickSettles(c: Conn, now: nat, c': Conn, pos: nat, limit: nat)
    requires Inv(c) && Moves(c, Own(Tick(now)), c') && c.st != Closed && c'.st != Closed && c.synced
    requires pos <= c.rx.RcvNxt() && Pledged(c, pos, limit) && limit <= now
    ensures ToldUpTo(c', pos)
  {
    hide Inv, Extends, TickSpec, ToldUpTo;
    StillSynced(c, c');
    ReceivesOn(c, c');
    if ToldUpTo(c, pos) {
      ToldStays(c, c', pos);
    } else {
      TickOwes(c, now, c');
      if c.st == TimeWait {
        WaitHasEof(c);
        SettledIsTold(c, pos);
        ToldStays(c, c', pos);
      } else {
        SettledIsTold(c', pos);
      }
    }
  }

  lemma WaitHasEof(c: Conn)
    requires Inv(c) && c.st == TimeWait
    ensures c.rx.eof
  {
    hide LogInv, OwedInv, KarnInv, ReceiveInv;
  }

  /**
   * Whatever arrives in order is acknowledged by the first tick 40 milliseconds later, whatever happens in between,
   * as long as the connection lives.
   */
  lemma AckedInTime(tr: Trace, k: nat, i: nat)
    requires tr.Valid() && k < i < |tr.stims| && tr.stims[k].Comes? && Conversing(tr.conns[k])
    requires tr.conns[k + 1].rx.RcvNxt() > tr.conns[k].rx.RcvNxt() && tr.conns[i + 1].st != Closed
    requires tr.stims[i].Own? && tr.stims[i].ev.Tick? && tr.stims[i].ev.now >= tr.stims[k].now + 40
    ensures ToldUpTo(tr.conns[i + 1], tr.conns[k + 1].rx.RcvNxt())
  {
    hide Moves, Extends, Inv, Opened, Pledged, ToldUpTo;
    TraceExtends(tr, i, i + 1);
    HandshakeFirst(tr.conns[i], tr.conns[i + 1]);
    PledgeKept(tr, k, i);
    MoveAt(tr, i);
    TraceInv(tr, i);
    var pos, limit := tr.conns[k + 1].rx.RcvNxt(), tr.stims[k].now + DELACK;
    TickSettles(tr.conns[i], tr.stims[i].ev.now, tr.conns[i + 1], pos, limit);
  }

  lemma LastIsSaid(c: Conn, k: nat, i: nat)
    requires LastTold(c.sent, k) && LastTold(c.sent, i)
    ensures k == i
  {
  }

  /** A peer that was last told a window of 0 has not been left waiting: there is no room for a segment yet. */
  lemma ClosedWindowIsTrue(tr: Trace, i: nat, k: nat)
    requires tr.Valid() && i < |tr.conns| && tr.conns[i].st != Closed && tr.conns[i].synced
    requires LastTold(tr.conns[i].sent, k) && tr.conns[i].sent[k].seg.wnd == 0
    ensures tr.conns[i].rx.Window() < tr.conns[i].pace.flow.mss
  {
    hide Moves, Opened, LogInv, KarnInv, ReceiveInv, LastTold;
    TraceInv(tr, i);
    var c := tr.conns[i];
    var j :| 0 <= j < |c.sent| && Said(c, j);
    LastIsSaid(c, k, j);
  }

  // ---------------------------------------------------------------- round trips

  /** The time a stimulus happens at; reads and aborts need none. */
  function TimeOf(s: Stimulus): nat {
    match s
    case Comes(_, now, _) => now
    case Own(Write(_, _, now)) => now
    case Own(Close(now)) => now
    case Own(Tick(now)) => now
    case Own(_) => 0
  }

  predicate TimedOnOr(c: Conn, now: nat, c': Conn) {
    || (c.pace.rtt.timing && c'.pace.rtt.upTo == c.pace.rtt.upTo && c'.pace.rtt.since == c.pace.rtt.since)
    || (c.tx.nxt < c'.pace.rtt.upTo && c'.pace.rtt.since == now)
  }

  lemma OwnTimed(c: Conn, ev: Event, c': Conn)
    requires !ev.Deliver? && Local(c, ev, c') && c'.st != Closed && c'.pace.rtt.timing
    ensures TimedOnOr(c, TimeOf(Own(ev)), c')
  {
    hide Contiguous, Proper, Started, Exhausted, Retransmits, Within, Build, IsReset;
  }

  lemma ComesTimed(c: Conn, seg: Segment, now: nat, backlogFull: bool, c': Conn)
    requires 0 <= c.rx.Window() && InputSpec(c, seg, now, backlogFull, c') && c'.st != Closed && c'.pace.rtt.timing
    ensures TimedOnOr(c, now, c')
  {
    hide Unwrap, Acceptable, Measures, Owing, WaitSet, Driven, Windowed, RxAfter, Retransmits, IsThird, Within, Build;
    hide Sampled, IsReset, Ends, StateOf;
  }

  lemma TimedStep(c: Conn, s: Stimulus, c': Conn)
    requires Moves(c, s, c') && c.st != Closed && c'.st != Closed && c'.pace.rtt.timing
    ensures TimedOnOr(c, TimeOf(s), c')
  {
    hide Inv, Extends, Local, InputSpec, TimedOnOr;
    match s
    case Own(ev) => OwnTimed(c, ev, c');
    case Comes(seg, now, backlogFull) => ComesTimed(c, seg, now, backlogFull, c');
  }

  lemma TimedInFlight(c: Conn)
    requires Inv(c) && c.st != Closed && c.pace.rtt.timing
    ensures c.pace.rtt.upTo <= c.tx.nxt
  {
    hide LogInv, OwedInv, KarnInv, ReceiveInv;
  }

  /** The text being timed was sent, for the first time, in the step the time was taken at. */
  lemma {:induction false} TimedSince(tr: Trace, i: nat) returns (k: nat)
    requires tr.Valid() && i < |tr.conns| && tr.conns[i].st != Closed && tr.conns[i].pace.rtt.timing
    ensures k < i && TimeOf(tr.stims[k]) == tr.conns[i].pace.rtt.since
    ensures tr.conns[k].tx.nxt < tr.conns[i].pace.rtt.upTo <= tr.conns[k + 1].tx.nxt
    decreases i
  {
    hide Moves, Extends, Inv;
    var c, s, c' := tr.conns[i - 1], tr.stims[i - 1], tr.conns[i];
    MoveAt(tr, i - 1);
    TraceInv(tr, i - 1);
    TraceInv(tr, i);
    TraceExtends(tr, i - 1, i);
    HandshakeFirst(c, c');
    TimedStep(c, s, c');
    TimedInFlight(c');
    if c.pace.rtt.timing && c'.pace.rtt.upTo == c.pace.rtt.upTo && c'.pace.rtt.since == c.pace.rtt.since {
      k := TimedSince(tr, i - 1);
    } else {
      k := i - 1;
    }
  }

  lemma KarnOf(c: Conn, a: nat, b: nat)
    requires Inv(c) && c.st != Closed && c.pace.rtt.timing && a < b < |c.sent|
    ensures !(Bears(c.sent[a], c.pace.rtt.upTo - 1) && Bears(c.sent[b], c.pace.rtt.upTo - 1))
  {
    hide LogInv, OwedInv, ReceiveInv, Bears;
  }

  lemma SampleOf(c: Conn, s: Stimulus, c': Conn)
    requires Moves(c, s, c') && Conversing(c) && s.Comes? && Processed(c, s.seg) && Measures(c, s.seg)
    ensures c.pace.rtt.timing && Sampled(c.pace.rtt, Wrap(s.now - c.pace.rtt.since), c'.pace.rtt)
  {
    hide Inv, Extends, Unwrap, Acceptable, Sampled, Owing, WaitSet, Driven, Windowed, RxAfter, Retransmits, IsThird;
  }

  /**
   * Every measured round trip is that of a byte sent exactly once (Karn's rule): it is the time from the step that
   * first sent it to its acknowledgment, and the timeout follows from it by RFC 6298.
   */
  lemma SampleIsHonest(tr: Trace, i: nat, a: nat, b: nat) returns (k: nat)
    requires tr.Valid() && i < |tr.stims| && Conversing(tr.conns[i]) && tr.stims[i].Comes?
    requires Processed(tr.conns[i], tr.stims[i].seg) && Measures(tr.conns[i], tr.stims[i].seg)
    ensures k < i && tr.conns[k].tx.nxt < tr.conns[i].pace.rtt.upTo <= tr.conns[k + 1].tx.nxt
    ensures Sampled(tr.conns[i].pace.rtt, Wrap(tr.stims[i].now - TimeOf(tr.stims[k])), tr.conns[i + 1].pace.rtt)
    ensures var pos := tr.conns[i].pace.rtt.upTo - 1;
      a < b < |tr.conns[i].sent| ==> !(Bears(tr.conns[i].sent[a], pos) && Bears(tr.conns[i].sent[b], pos))
  {
    hide Moves, Opened, Inv, Sampled, Wrap, Unwrap, Acceptable, Bears;
    MoveAt(tr, i);
    TraceInv(tr, i);
    SampleOf(tr.conns[i], tr.stims[i], tr.conns[i + 1]);
    k := TimedSince(tr, i);
    if a < b < |tr.conns[i].sent| {
      KarnOf(tr.conns[i], a, b);
    }
  }

  // ---------------------------------------------------------------- backoff

  /** A timeout doubled `n` times, up to 60 seconds. */
  function Doubled(rto: nat, n: nat): nat { if n == 0 then rto else Min(2 * Doubled(rto, n - 1), 60000) }

  /** The timeout of `c'` is that of `c`, or the timer has expired and it has doubled. */
  predicate TimeoutMoves(c: Conn, s: Stimulus, c': Conn) {
    if c'.pace.fires == c.pace.fires then c'.pace.rtt.rto == c.pace.rtt.rto
    else
      && c'.pace.fires == c.pace.fires + 1 && s.Own? && s.ev.Tick? && s.ev.now >= c.pace.rtoAt
      && c'.pace.rtt.rto == Min(2 * c.pace.rtt.rto, 60000) && c'.pace.rtoAt == s.ev.now + c'.pace.rtt.rto
  }

  lemma OwnTimeout(c: Conn, ev: Event, c': Conn)
    requires !ev.Deliver? && Local(c, ev, c') && c'.st != Closed
    ensures TimeoutMoves(c, Own(ev), c')
  {
    hide Contiguous, Proper, Started, Exhausted, Retransmits, Within, Build, IsReset;
  }

  lemma ComesTimeout(c: Conn, seg: Segment, now: nat, backlogFull: bool, c': Conn)
    requires 0 <= c.rx.Window() && InputSpec(c, seg, now, backlogFull, c') && c'.st != Closed && c'.tx.una == c.tx.una
    ensures TimeoutMoves(c, Comes(seg, now, backlogFull), c')
  {
    hide Unwrap, Acceptable, ProcessedSpec, Build;
    if c.st != SynSent && Processed(c, seg) {
      ProcessedTimeout(c, seg, now, backlogFull, c');
    }
  }

  lemma ProcessedTimeout(c: Conn, seg: Segment, now: nat, backlogFull: bool, c': Conn)
    requires ProcessedSpec(c, seg, now, backlogFull, c') && c'.tx.una == c.tx.una
    ensures c'.pace.fires == c.pace.fires && c'.pace.rtt.rto == c.pace.rtt.rto
  {
    hide Unwrap, Owing, WaitSet, Driven, Windowed, RxAfter, Retransmits, IsThird, Within, Sampled, IsReset, Ends;
  }

  /** The timeout changes at an expiry or with progress only. */
  lemma TimeoutStep(c: Conn, s: Stimulus, c': Conn)
    requires Moves(c, s, c') && c.st != Closed && c'.st != Closed && c'.tx.una == c.tx.una
    ensures TimeoutMoves(c, s, c')
  {
    hide Inv, Extends, Local, InputSpec, TimeoutMoves;
    match s
    case Own(ev) => OwnTimeout(c, ev, c');
    case Comes(seg, now, backlogFull) => ComesTimeout(c, seg, now, backlogFull, c');
  }

  /** Without progress, `n` expiries double the timeout `n` times. */
  lemma {:induction false} BackoffDoubles(tr: Trace, i: nat, j: nat)
    requires tr.Valid() && i <= j < |tr.conns| && tr.conns[j].st != Closed && tr.conns[j].tx.una == tr.conns[i].tx.una
    ensures tr.conns[i].pace.fires <= tr.conns[j].pace.fires
    ensures tr.conns[j].pace.rtt.rto ==
      Doubled(tr.conns[i].pace.rtt.rto, tr.conns[j].pace.fires - tr.conns[i].pace.fires)
    decreases j
  {
    hide Moves, Extends, Inv, Opened;
    if i < j {
      var c, s, c' := tr.conns[j - 1], tr.stims[j - 1], tr.conns[j];
      MoveAt(tr, j - 1);
      TraceInv(tr, j - 1);
      TraceExtends(tr, i, j - 1);
      TraceExtends(tr, j - 1, j);
      HandshakeFirst(c, c');
      UnaGrows(tr.conns[i], c);
      UnaGrows(c, c');
      BackoffDoubles(tr, i, j - 1);
      TimeoutStep(c, s, c');
    }
  }
}
