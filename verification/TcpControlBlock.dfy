/** The TCP control block `struct tcp_cb` and the methods of src/tcp that change it in place. */
module TcpControlBlock {
  import opened SeqSpace
  import opened ByteRings
  import opened PacketQueue
  import opened TcpSpec
  import opened TcpEvents
  import opened TcpReceiver
  import opened TcpSender
  import opened TcpSteps
  import opened TcpPhases

  /** The transmit side of the block: delayed-acknowledgment state and the log of what was sent. */
  class Outbox {
    var delackPending: nat
    var delackDeadline: nat
    var advertised: nat
    ghost var sent: seq<Sent>

    constructor ()
      ensures sent == [] && Due() == Owed(0, 0, 0)
    {
      delackPending, delackDeadline, advertised, sent := 0, 0, 0, [];
    }

    ghost function Due(): Owed
      reads this
    {
      Owed(delackPending, delackDeadline, advertised)
    }
  }

  class Tcb {
    var st: State
    var timewaitDeadline: nat
    const s: SendHalf
    const r: ReceiveHalf
    const t: RtoTimer
    const g: Congestion
    const o: Outbox

    /** The connection this block represents. */
    ghost function Abs(): Conn
      reads this, s, r, t, g, o
    {
      Conn(st, s.iss, r.irs, r.synced, s.tx, r.rx,
           Pace(s.wnd, g.cwnd, t.deadline, t.rtxCount, t.fires, Gauge(), t.Measure(), o.Due(), timewaitDeadline),
           o.sent)
    }

    ghost function Gauge(): Flow
      reads s, g
    {
      Flow(g.ssthresh, g.dupacks, s.mss, s.wl1, s.wl2, s.nodelay)
    }

    /** The parts are well formed and share no buffer. */
    ghost predicate Parts()
      reads this, s, s.ring, s.ring.buf, r, r.ring, r.ring.buf, r.ooo, r.ooo.nodes, t, g, o
    {
      && s.Valid() && r.Valid() && t.Valid() && g.Valid() && s.ring != r.ring && s.ring.buf != r.ring.buf
      && (t.timing ==> t.rttSeq == Wrap(s.iss + t.rttPos))
    }

    ghost predicate Consistent()
      reads this, s, s.ring, s.ring.buf, r, r.ring, r.ring.buf, r.ooo, r.ooo.nodes, t, g, o
    {
      Parts() && Core(Abs())
    }

    ghost predicate Valid()
      reads this, s, s.ring, s.ring.buf, r, r.ring, r.ring.buf, r.ooo, r.ooo.nodes, t, g, o
    {
      Parts() && Inv(Abs())
    }

    /** A block that has not been used yet. */
    ghost predicate Unused()
      reads this, s, s.ring, s.ring.buf, r, r.ring, r.ring.buf, r.ooo, r.ooo.nodes, t, g, o
    {
      && Parts() && st == Closed && s.tx == Tx([], 0, 1, false, false, false) && !r.synced
      && t.deadline == 0 && t.rtxCount == 0 && t.fires == 0 && !t.timing
      && o.sent == [] && o.Due() == Owed(0, 0, 0) && g.cwnd != 0
    }

    /** `tcb_alloc`. */
    constructor (iss: Word32)
      ensures Unused() && s.iss == iss
      ensures fresh(s) && fresh(s.ring) && fresh(s.ring.buf) && fresh(t) && fresh(g) && fresh(o)
      ensures fresh(r) && fresh(r.ring) && fresh(r.ring.buf) && fresh(r.ooo) && r.ooo.nodes == []
    {
      st, timewaitDeadline := Closed, 0;
      s := new SendHalf(iss);
      r := new ReceiveHalf();
      t := new RtoTimer();
      g := new Congestion();
      o := new Outbox();
    }

    /** `tcp_send_segment`: build one segment and hand it to the network. */
    method SendSegment(seqno: Word32, off: nat, n: nat, syn: bool, acks: bool, fin: bool, rst: bool,
                       ghost pos: nat) returns (ghost e: Sent)
      requires s.ring.Valid() && off + n <= s.ring.len && r.ring.Valid() && r.Window() == r.rx.Window()
      requires seqno == Wrap(s.iss + pos) && (acks && !rst ==> r.nxt == Wrap(r.irs + r.rx.RcvNxt()))
      modifies o
      ensures o.sent == old(o.sent) + [e] && e.seg.rst == rst
      ensures o.Due() == if acks then Paid(old(Abs())).owed else old(o.Due())
      ensures !rst ==> e == Build(old(Abs()), pos, s.ring.contents[off..off + n], syn, acks, fin)
      ensures rst ==> e.seg == Wire(seqno, r.nxt, r.Window(), syn, acks, fin, rst, s.ring.contents[off..off + n])
    {
      var wnd := r.Window();
      var payload := s.ring.CopyOut(off, n);
      var seg := Wire(seqno, r.nxt, wnd, syn, acks, fin, rst, payload);
      if acks {
        o.delackPending, o.delackDeadline, o.advertised := 0, 0, wnd;
      }
      e := Sent(seg, pos, r.rx.RcvNxt());
      o.sent := o.sent + [e];
    }

    /** `tcp_send_ctl(TCP_ACK)`. */
    method SendAck()
      requires Parts() && r.synced
      modifies o
      ensures Parts() && 0 <= old(r.rx).Window() && Abs() == Acked(old(Abs()))
    {
      hide Wrap, SendHalf.Valid, ReceiveHalf.Valid, ByteRing.Valid;
      s.Flight();
      r.Facts();
      ghost var e := SendSegment(s.nxt, 0, 0, false, true, false, false, s.tx.nxt);
    }

    /** Send the next `n` bytes of the ring at SND.NXT. */
    method PutText(off: nat, n: nat) returns (ghost e: Sent)
      requires Parts() && r.synced && 1 <= s.tx.una && !s.tx.finSent
      requires off == s.tx.nxt - s.tx.una && off + n <= s.ring.len
      modifies s`nxt, s`tx, o
      ensures Parts() && 0 <= r.rx.Window() && old(s.tx).una <= old(s.tx).nxt
      ensures old(s.tx.nxt) - old(s.tx.una) + n <= |old(s.tx).Unacked()| && e == NextText(old(Abs()), n)
      ensures s.tx == old(s.tx).(nxt := old(s.tx).nxt + n)
      ensures o.sent == old(o.sent) + [e] && o.Due() == Paid(old(Abs())).owed
    {
      hide Wrap, SendHalf.Valid, ReceiveHalf.Valid, ByteRing.Valid;
      s.Flight();
      r.Facts();
      e := SendSegment(s.nxt, off, n, false, true, false, false, s.tx.nxt);
      s.Advance(n);
    }

    /** The body of the `tcp_output` loop: send the next `chunk` bytes and see that the timer runs. */
    method SendText(chunk: nat, now: nat) returns (ghost e: Sent)
      requires Consistent() && Sending(st) && !s.finSent
      requires 0 < chunk <= s.mss && s.DataInFlight() + chunk <= s.ring.len
      modifies s`nxt, s`tx, t, o
      ensures Consistent() && Extends(old(Abs()), Abs())
      ensures var c := old(Abs());
        Abs() == SentText(c, e, Clocked(c.pace, now), TimedUpTo(c.pace.rtt, c.tx.nxt + chunk, now))
      ensures e.pos == old(s.tx.nxt) && |e.seg.data| == e.seg.SeqLen() == chunk && Tells(e)
    {
      hide Wrap, Core, Extends, SendHalf.Valid, ReceiveHalf.Valid, ByteRing.Valid, SendHalf.DataInFlight;
      s.Flight();
      ghost var c := Abs();
      SendingFacts(c);
      e := PutText(s.DataInFlight(), chunk);
      s.Flight();
      t.TextSent(s.nxt, now, s.tx.nxt);
      TextKeepsCore(c, chunk, t.deadline, t.Measure());
    }

    /** The FIN, once everything before it has been sent. */
    method SendFin(now: nat)
      requires Consistent() && Sending(st) && s.finQueued && !s.finSent && s.ring.len == s.DataInFlight()
      modifies s`nxt, s`tx, s`finSent, t, o
      ensures Consistent() && Extends(old(Abs()), Abs()) && 0 <= old(r.rx).Window()
      ensures Abs() == SentFin(old(Abs()), Clocked(old(Abs()).pace, now)) && s.tx.finSent
    {
      hide Wrap, Core, Extends, SendHalf.Valid, ReceiveHalf.Valid, ByteRing.Valid, SendHalf.DataInFlight;
      s.Flight();
      r.Facts();
      ghost var c := Abs();
      SendingFacts(c);
      ghost var e := SendSegment(s.nxt, 0, 0, false, true, true, false, s.tx.nxt);
      s.AdvanceFin();
      t.Arm(now);
      FinKeepsCore(c, t.deadline);
    }

    /** One turn of the `tcp_output` loop: it sends, unless there is no data, no window, or too little for Nagle. */
    method SendNext(wnd: nat, now: nat, ghost c: Conn) returns (more: bool)
      requires Consistent() && Sending(st) && Sending(c.st) && Sends(c, now, Abs()) && Extends(c, Abs())
      requires TextFirst(c, Abs()) && s.tx == c.tx.(nxt := s.tx.nxt) && wnd == Limit(c.pace) && 0 < c.pace.rtt.rto
      modifies s`nxt, s`tx, t, o
      ensures Consistent() && Sends(c, now, Abs()) && Extends(c, Abs()) && TextFirst(c, Abs())
      ensures s.tx == c.tx.(nxt := s.tx.nxt)
      ensures more ==> Unsent(s.tx) < old(Unsent(s.tx)) && 0 <= Unsent(s.tx)
      ensures !more ==> s.tx.finSent || Unsent(s.tx) == 0 || s.tx.nxt - s.tx.una >= Limit(Abs().pace) || Held(Abs())
    {
      hide Wrap, Core, Extends, Sends, Proper, TextFirst, SendHalf.Valid, ReceiveHalf.Valid, ByteRing.Valid;
      hide SendHalf.DataInFlight, SendHalf.InFlight, TimedUpTo, Clocked;
      ghost var d := Abs();
      s.Flight();
      SendingFacts(d);
      SendsSame(c, now, d);
      var inFlight := s.InFlight();
      var sentData := s.DataInFlight();
      var avail := s.ring.len - sentData;
      if avail == 0 || s.finSent {
        return false;
      }
      if inFlight >= wnd {
        return false;
      }
      var room := wnd - inFlight;
      // The chunk is never empty here: there is data, room, and an MSS of at least 1.
      var chunk := Min(Min(avail, s.mss), room);
      if !s.nodelay && sentData > 0 && chunk < s.mss && chunk == avail {
        return false;
      }
      ghost var e := SendText(chunk, now);
      ChunkProper(c, e, avail, room);
      SendsMore(c, now, d, e, Abs());
      TextFirstMore(c, d, e, Abs());
      ExtendsTrans(c, d, Abs());
      more := true;
    }

    /** The loop of `tcp_output`. */
    method OutputText(now: nat)
      requires Consistent() && Sending(st)
      modifies s`nxt, s`tx, t, o
      ensures Consistent() && Sends(old(Abs()), now, Abs()) && Extends(old(Abs()), Abs())
      ensures s.tx == old(s.tx).(nxt := s.tx.nxt) && TextFirst(old(Abs()), Abs())
      ensures s.tx.finSent || Unsent(s.tx) == 0 || s.tx.nxt - s.tx.una >= Limit(Abs().pace) || Held(Abs())
    {
      hide Wrap, Core, Extends, Sends, TextFirst, Held, SendHalf.Valid, ReceiveHalf.Valid, ByteRing.Valid;
      ghost var c := Abs();
      OutputNothing(c, now);
      ExtendsRefl(c);
      TextFirstRefl(c);
      TimeoutPositive(c);
      var wnd := Min(s.wnd, g.cwnd);
      var more := true;
      while more
        invariant Consistent() && Sends(c, now, Abs()) && Extends(c, Abs()) && TextFirst(c, Abs())
        invariant s.tx == old(s.tx).(nxt := s.tx.nxt)
        invariant !more ==>
          s.tx.finSent || Unsent(s.tx) == 0 || s.tx.nxt - s.tx.una >= Limit(Abs().pace) || Held(Abs())
        decreases more, Unsent(s.tx)
      {
        more := SendNext(wnd, now, c);
      }
    }

    /** `tcp_output`. */
    method Output(now: nat)
      requires Consistent()
      modifies s`nxt, s`tx, s`finSent, t, o
      ensures Consistent() && OutputSpec(old(Abs()), now, Abs()) && Extends(old(Abs()), Abs())
      ensures Sending(st) ==> Valid()
    {
      hide Wrap, Core, Extends, Sends, Inv, SendHalf.Valid, ReceiveHalf.Valid, ByteRing.Valid;
      hide SendHalf.DataInFlight, SendHalf.InFlight;
      ghost var c := Abs();
      if !Sending(st) {
        OutputNothing(c, now);
        ExtendsRefl(c);
        return;
      }
      TimeoutPositive(c);
      OutputText(now);
      ghost var d := Abs();
      s.Flight();
      SendingFacts(d);
      if s.finQueued && !s.finSent && s.ring.len == s.DataInFlight() {
        SendFin(now);
        SendsFin(c, now, d, Abs());
        ExtendsTrans(c, d, Abs());
      }
      if s.tx.una == s.tx.nxt {
        ExhaustedIdle(Abs());
      }
      OutputNeverStalls(Abs());
    }

    /** The send engine, called where it may find nothing to do. */
    method Drive(now: nat)
      requires Consistent()
      modifies s`nxt, s`tx, s`finSent, t, o
      ensures Valid() && Extends(old(Abs()), Abs()) && Pushed(old(Abs()), now, Abs())
      ensures Sending(st) ==> Exhausted(Abs())
    {
      hide Core, Inv, Extends, Sends, Exhausted, Pushed, Tcb.Parts;
      ghost var c := Abs();
      Output(now);
      OutputPushes(c, now, Abs());
      NotSending(Abs());
    }

    // -------------------------------------------------------------- retransmission and the clock

    /** Send again what is oldest: the SYN, text, or the FIN; nothing is timed any longer. */
    method PutAgain()
      requires Parts() && s.tx.una < s.tx.nxt && (Handshaking(st) <==> s.tx.una == 0) && (st == SynSent <==> !r.synced)
      modifies t`timing, o
      ensures Parts() && SendInv(s.tx) && 0 <= r.rx.Window() && Abs() == Resent(old(Abs()))
    {
      hide Wrap, SendHalf.Valid, ReceiveHalf.Valid, ByteRing.Valid, SendHalf.DataInFlight, Build, Resend;
      ghost var c := Abs();
      s.Flight();
      r.Facts();
      t.timing := false;
      var syn := st == SynSent || st == SynRcvd;
      var n := if syn then 0 else Min(s.DataInFlight(), s.mss);
      WrapWord(s.iss);
      ghost var d := Abs();
      ghost var e := SendSegment(if syn then s.iss else s.una, 0, n, syn, st != SynSent,
                                 !syn && n == 0, false, s.tx.una);
      ResendBuilt(c, d, n, e);
    }

    /** `tcp_retransmit`. */
    method Retransmit()
      requires Consistent() && st != Closed && s.tx.una < s.tx.nxt
      modifies t`timing, o
      ensures Consistent() && Extends(old(Abs()), Abs()) && SendInv(old(s.tx)) && 0 <= old(r.rx).Window()
      ensures Abs() == Resent(old(Abs())) && Retransmits(old(Abs()), Resend(old(Abs())))
    {
      hide Core, Extends, Retransmits, Resend, Tcb.Parts;
      ghost var c := Abs();
      LiveFacts(c);
      PutAgain();
      ResendKeepsCore(c);
    }

    /** `tcb_free`. */
    method Free()
      requires Parts() && Sound(Abs())
      modifies this`st, t
      ensures Valid() && Abs() == Freed(old(Abs())) && Extends(old(Abs()), Abs())
    {
      hide Wrap, Sound, Inv, Extends, SendHalf.Valid, ReceiveHalf.Valid;
      ghost var c := Abs();
      st := Closed;
      t.Stop();
      FreedKeepsInv(c, Abs().pace);
    }

    /** Send a RST and free the block: `tcp_app_abort`, and the end of an exhausted retransmission. */
    method ResetAndFree(quietly: bool)
      requires Parts() && Sound(Abs())
      modifies this`st, t, o
      ensures Valid() && Extends(old(Abs()), Abs())
      ensures if quietly then Abs() == Freed(old(Abs())) else Reset(Freed(old(Abs())), Abs())
    {
      hide Wrap, Sound, Inv, Extends, SendHalf.Valid, ReceiveHalf.Valid, ByteRing.Valid;
      ghost var c := Abs();
      if !quietly {
        s.Flight();
        r.Facts();
        ghost var e := SendSegment(s.nxt, 0, 0, false, true, false, true, s.tx.nxt);
        ResetKeepsSound(c, e, Abs().pace);
      } else {
        ExtendsRefl(c);
      }
      ghost var d := Abs();
      Free();
      ExtendsTrans(c, d, Abs());
    }

    /** `tcp_app_abort`. */
    method Abort()
      requires Valid() && st != Closed
      modifies this`st, t, o
      ensures Valid() && AbortSpec(old(Abs()), Abs()) && Extends(old(Abs()), Abs())
    {
      hide Core, Inv, Extends, Sound;
      InvIsCore(Abs());
      CoreIsSound(Abs());
      ResetAndFree(st == SynSent);
    }

    /** Collapse the congestion window and retransmit: the timer was restarted by `Expire`. */
    method Backoff(ghost c: Conn, now: nat)
      requires Parts() && Core(c) && st != Closed && c.tx.una < c.tx.nxt && c.pace.rtx < MAX_RTX
      requires var b, p := BackedOff(c, now), c.pace;
        Abs() == c.(pace := p.(rtoAt := b.rtoAt, rtx := b.rtx, fires := b.fires, rtt := p.rtt.(rto := b.rtt.rto)))
      modifies t`timing, g, o
      ensures Valid() && Extends(c, Abs()) && 0 <= c.rx.Window() && SendInv(c.tx) && Retransmits(c, Resend(c))
      ensures Abs() == c.(pace := BackedOff(c, now), sent := c.sent + [Resend(c)])
    {
      hide Wrap, Core, Inv, Extends, Resend, Retransmits, SendHalf.Valid, ReceiveHalf.Valid;
      s.Flight();
      g.Timeout(s.InFlight(), s.mss);
      WrapSmall(g.ssthresh);
      ghost var d := Abs();
      BackoffKeepsCore(c, now, d.pace);
      Retransmit();
      ResendKeepsCore(c);
      LiveFacts(Abs());
      TimerMeansNoStall(Abs());
      ExtendsTrans(c, d, Abs());
    }

    /** The retransmission timer of `tcp_tick` has expired. */
    method Expired(now: nat)
      requires Valid() && st != Closed && st != TimeWait && t.deadline != 0 && now >= t.deadline
      modifies this`st, t, g, o
      ensures Valid() && 0 <= old(r.rx).Window() && FlowInv(old(Gauge())) && TickSpec(old(Abs()), now, Abs())
      ensures Extends(old(Abs()), Abs())
    {
      hide Wrap, Core, Inv, Extends, TickSpec, Freed, Reset, Retransmits, Resend, SendHalf.Valid, ReceiveHalf.Valid;
      hide ByteRing.Valid;
      ghost var c := Abs();
      InvIsCore(c);
      LiveFacts(c);
      LiveTimer(c);
      var giveUp := t.Expire(now);
      if giveUp {
        ghost var d := Abs();
        PaceKeepsCore(c, d.pace);
        CoreIsSound(d);
        ResetAndFree(false);
        GiveUpTicks(c, now, d, Abs());
        ExtendsTrans(c, d, Abs());
      } else {
        Backoff(c, now);
        RetryTicks(c, now, Abs());
      }
    }

    /** `tcp_send_probe`: one byte beyond a closed window, under the retransmission timer. */
    method Probe(now: nat)
      requires Valid() && ProbeDue(Abs())
      modifies s`nxt, s`tx, t`deadline, o
      ensures Valid() && Extends(old(Abs()), Abs()) && o.delackDeadline == 0
      ensures Abs() == SentText(old(Abs()), old(NextText(Abs(), 1)), now + old(t.rtoMs), old(t.Measure()))
    {
      hide Wrap, Core, Extends, SendHalf.Valid, ReceiveHalf.Valid, ByteRing.Valid, SendHalf.InFlight;
      ghost var c := Abs();
      s.Flight();
      SendingFacts(c);
      FlowPositive(c);
      ghost var e := PutText(s.InFlight(), 1);
      t.Arm(now);
      TextKeepsCore(c, 1, t.deadline, t.Measure());
      TimerMeansNoStall(Abs());
    }

    /** The delayed acknowledgment of `tcp_tick`. */
    method DelayedAck(now: nat)
      requires Valid() && st != Closed && 0 <= r.rx.Window()
      modifies o
      ensures Valid() && Extends(old(Abs()), Abs())
      ensures Abs() == if AckDue(old(Abs()), now) then Acked(old(Abs())) else old(Abs())
    {
      hide Wrap, Inv, Core, Extends, SendHalf.Valid, ReceiveHalf.Valid, ByteRing.Valid;
      ExtendsRefl(Abs());
      if o.delackDeadline != 0 && now >= o.delackDeadline {
        InvIsCore(Abs());
        OwingIsSynced(Abs());
        AckedKeepsInv(Abs());
        SendAck();
      }
    }

    /** The rest of `tcp_tick` when no retransmission is due: zero-window probe and delayed acknowledgment. */
    method ProbeAndAck(now: nat)
      requires Valid() && st != Closed && st != TimeWait && (t.deadline == 0 || now < t.deadline)
      modifies s`nxt, s`tx, t`deadline, o
      ensures Valid() && 0 <= old(r.rx).Window() && FlowInv(old(Gauge())) && TickSpec(old(Abs()), now, Abs())
      ensures Extends(old(Abs()), Abs()) && !AckDue(Abs(), now)
    {
      hide Wrap, Core, Inv, Extends, NextText, SentText, TickSpec, SendHalf.Valid, ReceiveHalf.Valid, ByteRing.Valid;
      ghost var c := Abs();
      s.Flight();
      InvIsCore(c);
      LiveFacts(c);
      ExtendsRefl(c);
      Compare(s.iss, s.tx.una, s.tx.nxt);
      if t.deadline == 0 && s.ring.len > 0 && s.wnd == 0 && s.una == s.nxt && Sending(st) {
        Probe(now);
        ProbeTicks(c, now);
      } else {
        IdleTicks(c, now);
      }
      ghost var d := Abs();
      DelayedAck(now);
      ExtendsTrans(c, d, Abs());
    }

    /** `tcp_tick` for this block. */
    method Tick(now: nat)
      requires Valid() && st != Closed
      modifies this`st, s`nxt, s`tx, t, g, o
      ensures Valid() && 0 <= old(r.rx).Window() && FlowInv(old(Gauge())) && TickSpec(old(Abs()), now, Abs())
      ensures Extends(old(Abs()), Abs())
    {
      hide Wrap, Core, Inv, Extends, Sound, BackedOff, SendHalf.Valid, ReceiveHalf.Valid, ByteRing.Valid;
      if st == TimeWait {
        InvIsCore(Abs());
        LiveFacts(Abs());
        CoreIsSound(Abs());
        ExtendsRefl(Abs());
        if now >= timewaitDeadline {
          Free();
        }
      } else if t.deadline != 0 && now >= t.deadline {
        Expired(now);
      } else {
        ProbeAndAck(now);
      }
    }

    // -------------------------------------------------------------- the application

    /** `tcp_open_active`. */
    method Connect(now: nat)
      requires Unused()
      modifies this`st, t, o
      ensures Valid() && Opened(Abs()) && !r.synced
    {
      hide Wrap, Inv, SendHalf.Valid, ByteRing.Valid;
      s.Flight();
      WrapWord(s.iss);
      st := SynSent;
      ghost var e := SendSegment(s.iss, 0, 0, true, false, false, false, 0);
      t.Arm(now);
      OpenedInv(Abs());
    }

    /** The child block set up for a SYN that arrives in LISTEN. */
    method Accept(syn: Segment, now: nat)
      requires Unused() && syn.syn && !syn.rst && !syn.acks
      modifies this`st, s`wnd, s`wl1, s`wl2, s`mss, r, t, o
      ensures Valid() && Opened(Abs()) && r.synced && r.irs == syn.seqno
      ensures s.mss == EffectiveMss(syn.mss) && s.wnd == syn.wnd
    {
      r.Sync(syn.seqno);
      s.SetPeer(syn.wnd, syn.seqno, s.iss, EffectiveMss(syn.mss));
      AcceptSynced(now);
    }

    method AcceptSynced(now: nat)
      requires Parts() && st == Closed && s.tx == Tx([], 0, 1, false, false, false)
      requires r.synced && r.rx == Rx([], 0, false, []) && !t.timing
      requires t.deadline == 0 && t.rtxCount == 0 && t.fires == 0 && o.sent == [] && g.cwnd != 0
      modifies this`st, t, o
      ensures Valid() && Opened(Abs())
    {
      hide Wrap, Inv, SendHalf.Valid, ReceiveHalf.Valid, ByteRing.Valid;
      s.Flight();
      r.Facts();
      WrapWord(s.iss);
      st := SynRcvd;
      ghost var e := SendSegment(s.iss, 0, 0, true, true, false, false, 0);
      t.Arm(now);
      OpenedInv(Abs());
    }

    /** `pf_sock_set_nodelay`. */
    method SetNodelay(nodelay: bool)
      requires Valid()
      modifies s`nodelay
      ensures Valid() && Extends(old(Abs()), Abs())
      ensures Abs() == NagleSet(old(Abs()), nodelay)
    {
      hide Wrap, Inv, Extends, ReceiveHalf.Valid, ByteRing.Valid;
      ghost var c := Abs();
      s.nodelay := nodelay;
      NagleKeepsInv(c, nodelay);
    }

    /** One pass of the `pf_send` loop. */
    method Write(data: seq<byte>, now: nat) returns (n: nat)
      requires Valid() && (st == Established || st == CloseWait)
      modifies s, s.ring, s.ring.buf, t, o
      ensures Valid() && WriteSpec(old(Abs()), data, n, now, Abs()) && Extends(old(Abs()), Abs())
    {
      hide Wrap, Core, Inv, Extends, OutputSpec, SendHalf.Valid, ReceiveHalf.Valid, ByteRing.Valid;
      ghost var c := Abs();
      InvIsCore(c);
      s.Flight();
      SendingFacts(c);
      NotClosed(c);
      n := s.Append(data);
      ghost var d := Abs();
      WriteKeepsCore(c, data[..n]);
      Output(now);
      ExtendsTrans(c, d, Abs());
    }

    /**
     * `pf_recv` when bytes are ready or the peer has closed; the result is its return value, with
     * -2 where the source waits. It is 0 for a clean end of stream, but also when the 32-bit
     * truncation of `cap` is 0.
     */
    method Recv(cap: nat) returns (n: int, bytes: seq<byte>)
      requires Valid() && st != Closed
      modifies r`rx, r.ring, o
      ensures Valid() && ReadSpec(old(Abs()), cap, bytes, Abs()) && Extends(old(Abs()), Abs())
      ensures n == (if old(r.rx.Unread()) != [] then |bytes| else if r.eof then 0 else -2)
      ensures n == 0 <==> if old(r.rx.Unread()) == [] then r.eof else cap % MODULUS == 0
    {
      hide Wrap, Core, Inv, Extends, Acked, SendHalf.Valid, ReceiveHalf.Valid, ByteRing.Valid;
      ghost var c := Abs();
      r.Facts();
      InvIsCore(c);
      LiveFacts(c);
      HandshakeUnread(c);
      if r.ring.len == 0 {
        bytes := [];
        n := if r.eof then 0 else -2;
        ExtendsRefl(c);
        return;
      }
      bytes := r.Read(cap);
      n := |bytes|;
      ReadKeepsInv(c, |bytes|);
      r.Facts();
      // A window that was advertised as closed is announced once it is worth at least one segment.
      if o.advertised == 0 && r.Window() >= s.mss {
        SendAck();
      }
    }

    /** `tcp_app_close`. */
    method Close(now: nat)
      requires Valid() && st != Closed && st != SynRcvd
      modifies this`st, s, t, o
      ensures Valid() && CloseSpec(old(Abs()), now, Abs()) && Extends(old(Abs()), Abs())
    {
      hide Core, Inv, Extends, OutputSpec, Sound, Tcb.Parts;
      ghost var c := Abs();
      InvIsCore(c);
      ExtendsRefl(c);
      if st == SynSent {
        CoreIsSound(c);
        Free();
      } else if st == Established || st == CloseWait {
        QueueFin();
        ghost var d := Abs();
        Output(now);
        ExtendsTrans(c, d, Abs());
      }
    }

    /** The application closes: the FIN is queued behind the text. */
    method QueueFin()
      requires Consistent() && (st == Established || st == CloseWait)
      modifies this`st, s`finQueued, s`tx
      ensures Consistent() && Extends(old(Abs()), Abs()) && Sending(st)
      ensures var c := old(Abs());
        Abs() == c.(tx := c.tx.(closed := true, closedFirst := !c.rx.eof), st := if c.rx.eof then LastAck else FinWait1)
    {
      hide Wrap, Core, Extends, SendHalf.Valid, ReceiveHalf.Valid, ByteRing.Valid;
      ghost var c := Abs();
      SendingFacts(c);
      NotClosed(c);
      s.CloseStream(st == Established);
      st := if st == Established then FinWait1 else LastAck;
      CloseKeepsCore(c);
    }

    // -------------------------------------------------------------- segment arrives

    /** `tcp_enter_timewait`. */
    method EnterTimeWait(now: nat)
      requires Parts()
      modifies this`st, this`timewaitDeadline, t`deadline, o`delackDeadline
      ensures Parts() && st == TimeWait && t.deadline == 0 && o.delackDeadline == 0 && timewaitDeadline == now + 2 * MSL
    {
      hide Wrap, SendHalf.Valid, ReceiveHalf.Valid;
      st := TimeWait;
      timewaitDeadline := now + 2 * MSL;
      t.deadline := 0;
      o.delackDeadline := 0;
    }

    /** New data acknowledged: release it, restart or stop the timer, grow the congestion window. */
    method Credit(ack: Word32, now: nat, ghost a: nat) returns (finAcked: bool)
      requires Parts() && ack == Wrap(s.iss + a) && 1 <= s.tx.una < a <= s.tx.nxt && RttInv(s.tx, t.Measure())
      modifies s`una, s`tx, s.ring, t, g
      ensures Parts() && s.tx == old(s.tx).(una := a) && finAcked == s.tx.FinAcked()
      ensures t.fires == old(t.fires) && t.rtxCount == 0 && TimerInv(s.tx, Abs().pace)
      ensures t.deadline == if s.tx.una == s.tx.nxt then 0 else now + t.rtoMs
      ensures if old(t.timing) && a >= old(t.rttPos)
        then Sampled(old(t.Measure()), Wrap(now - old(t.rttStart)), t.Measure()) && !t.timing
        else t.Measure() == old(t.Measure())
      ensures Gauge() == old(Gauge()).(dupacks := 0)
      ensures g.cwnd == GrownWindow(old(g.cwnd), old(g.ssthresh), old(g.dupacks), DataAcked(old(s.tx), a), s.mss)
    {
      hide Wrap, SendHalf.Valid, ReceiveHalf.Valid, ByteRing.Valid, GrownWindow, Sampled, SeqGe, TimerInv, SendInv;
      hide RttInv, DataAcked;
      ghost var c := Abs();
      s.Flight();
      TimedCompares(s.iss, s.tx, t.Measure(), a);
      var dbytes;
      dbytes, finAcked := s.Release(ack, a);
      s.Flight();
      SndCompares(s.iss, s.tx);
      Reckon(ack, dbytes, now, a);
      ProgressTimer(c.tx, a, c.pace, Abs().pace);
    }

    /** The timer and the congestion window after progress. */
    method Reckon(ack: Word32, dbytes: nat, now: nat, ghost a: nat)
      requires t.Valid() && g.Valid() && (t.timing ==> (SeqGe(ack, t.rttSeq) <==> a >= t.rttPos))
      modifies t, g
      ensures t.Valid() && g.Valid() && t.fires == old(t.fires) && t.rtxCount == 0
      ensures t.deadline == if s.una == s.nxt then 0 else now + t.rtoMs
      ensures if old(t.timing) && a >= old(t.rttPos)
        then Sampled(old(t.Measure()), Wrap(now - old(t.rttStart)), t.Measure()) && !t.timing
        else t.Measure() == old(t.Measure()) && t.rttSeq == old(t.rttSeq)
      ensures g.dupacks == 0 && g.ssthresh == old(g.ssthresh)
      ensures g.cwnd == GrownWindow(old(g.cwnd), old(g.ssthresh), old(g.dupacks), dbytes, s.mss)
    {
      hide Wrap, GrownWindow, Sampled, SeqGe;
      t.Progress(ack, s.una != s.nxt, now, a);
      g.NewAck(dbytes, s.mss);
    }

    /** The state changes an acknowledgment brings when it covers our FIN. */
    method MoveOn(finAcked: bool, now: nat)
      requires Parts()
      modifies this`st, this`timewaitDeadline, t`deadline, o`delackDeadline
      ensures Parts()
      ensures finAcked && old(st) == Closing ==>
        st == TimeWait && t.deadline == 0 && o.delackDeadline == 0 && timewaitDeadline == now + 2 * MSL
      ensures !(finAcked && old(st) == Closing) ==>
        && t.deadline == old(t.deadline) && o.delackDeadline == old(o.delackDeadline)
        && timewaitDeadline == old(timewaitDeadline)
        && st == if !finAcked then old(st) else if old(st) == FinWait1 then FinWait2
                 else if old(st) == LastAck then Closed else old(st)
    {
      hide Wrap, SendHalf.Valid, ReceiveHalf.Valid;
      if finAcked {
        if st == FinWait1 {
          st := FinWait2;
        } else if st == Closing {
          EnterTimeWait(now);
        } else if st == LastAck {
          st := Closed;
        }
      }
    }

    /** A new acknowledgment, with the state changes it brings when it covers our FIN. */
    method NewAck(seg: Segment, now: nat, ghost a: nat)
      requires Consistent() && st != Closed && !Handshaking(st) && seg.ackno == Wrap(s.iss + a)
      requires a == AckPos(Abs(), seg) && s.tx.una < a <= s.tx.nxt
      modifies this`st, this`timewaitDeadline, s`una, s`tx, s.ring, t, g, o`delackDeadline
      ensures Consistent() && Extends(old(Abs()), Abs()) && Credited(old(Abs()), seg, now, Abs())
      ensures Gauge() == old(Gauge()).(dupacks := 0) && s.wnd == old(s.wnd)
      ensures g.cwnd == GrownWindow(old(g.cwnd), old(g.ssthresh), old(g.dupacks), DataAcked(old(s.tx), a), s.mss)
    {
      hide Wrap, Unwrap, Core, Extends, GrownWindow, DataAcked, Sampled, SendHalf.Valid, ReceiveHalf.Valid;
      hide ByteRing.Valid, RttInv, Credited, Tcb.Parts;
      ghost var c := Abs();
      LiveFacts(c);
      LiveTimer(c);
      AckedState(c, a);
      var finAcked := Credit(seg.ackno, now, a);
      ghost var d := Abs();
      MoveOn(finAcked, now);
      MovedIsCredited(c, seg, now, d, Abs());
      CreditedKeepsCore(c, seg, now, Abs());
    }

    /** A duplicate acknowledgment is counted, and the congestion window follows. */
    method CountDuplicate() returns (fast: bool)
      requires Valid() && st != Closed && s.tx.una < s.tx.nxt
      modifies g
      ensures Consistent() && Extends(old(Abs()), Abs()) && t.deadline != 0 && fast == (g.dupacks == 3)
      ensures Abs() == old(Abs()).(pace := old(Abs()).pace.(cwnd := g.cwnd, flow := Gauge()))
      ensures Gauge() == CountedDuplicate(old(Gauge()), s.tx.nxt - s.tx.una)
      ensures g.cwnd == DuplicateWindow(old(g.cwnd), g.dupacks, s.tx.nxt - s.tx.una, s.mss)
    {
      hide Wrap, Core, Extends, DuplicateWindow, SendHalf.Valid, ReceiveHalf.Valid, ByteRing.Valid;
      ghost var c := Abs();
      s.Flight();
      LiveFacts(c);
      LiveTimer(c);
      fast := g.Duplicate(s.InFlight(), s.mss);
      WrapWord(g.ssthresh);
      PaceKeepsCore(c, Abs().pace);
    }

    /** Retransmit at the third duplicate, send what the inflated window allows beyond. */
    method Recover(fast: bool, now: nat)
      requires Consistent() && st != Closed && r.synced && s.tx.una < s.tx.nxt && t.deadline != 0
      modifies s`nxt, s`tx, s`finSent, t, o
      ensures Valid() && Extends(old(Abs()), Abs()) && Pushed(old(Abs()), now, Abs()) && t.deadline != 0
      ensures fast ==>
        |o.sent| == |old(o.sent)| + 1 && Retransmits(old(Abs()), o.sent[|old(o.sent)|]) && s.tx == old(s.tx)
      ensures !fast && g.dupacks <= 3 ==> Abs() == old(Abs())
      ensures !fast && g.dupacks > 3 && Sending(st) ==> Exhausted(Abs())
    {
      hide Wrap, Core, Extends, Sends, Exhausted, Resend, Retransmits, Stalled, SendHalf.Valid, ReceiveHalf.Valid;
      hide ByteRing.Valid;
      ghost var c := Abs();
      ExtendsRefl(c);
      if fast {
        LiveFacts(c);
        Retransmit();
        ResendTells(c);
      } else if g.dupacks > 3 {
        Drive(now);
      }
      LiveFacts(Abs());
      ExtendsNxt(c, Abs());
      TimerMeansNoStall(Abs());
    }

    /** A duplicate acknowledgment. */
    method DupAck(now: nat)
      requires Valid() && st != Closed && r.synced && s.tx.una < s.tx.nxt
      modifies s`nxt, s`tx, s`finSent, t, g, o
      ensures Valid() && Extends(old(Abs()), Abs()) && Pushed(old(Abs()), now, Abs()) && t.deadline != 0
      ensures g.cwnd == DuplicateWindow(old(g.cwnd), g.dupacks, old(s.tx).nxt - old(s.tx).una, s.mss)
      ensures old(s.tx).una < old(s.tx).nxt && Gauge() == CountedDuplicate(old(Gauge()), old(s.tx).nxt - old(s.tx).una)
      ensures g.dupacks == 3 ==>
        |o.sent| == |old(o.sent)| + 1 && Retransmits(old(Abs()), o.sent[|old(o.sent)|]) && s.tx == old(s.tx)
      ensures g.dupacks < 3 ==> Abs() == old(Abs()).(pace := old(Abs()).pace.(flow := Gauge()))
      ensures g.dupacks > 3 && Sending(st) ==> Exhausted(Abs())
    {
      hide Wrap, Core, Inv, Extends, DuplicateWindow, CountedDuplicate, Tcb.Parts, Exhausted;
      ghost var c := Abs();
      InvIsCore(c);
      TimeoutPositive(c);
      var fast := CountDuplicate();
      CountedKeepsMss(c.pace.flow, s.tx.nxt - s.tx.una);
      EarlyDuplicate(c.pace.cwnd, g.dupacks, s.tx.nxt - s.tx.una, s.mss);
      ghost var d := Abs();
      Recover(fast, now);
      PushedTrans(c, d, Abs(), now);
      ExtendsTrans(c, d, Abs());
    }

    predicate InSendWindow(ack: Word32)
      reads s
    {
      SeqLe(s.una, ack) && SeqLe(ack, s.nxt)
    }

    /** SND.WND maintenance; a window that reopens restarts the send engine. */
    method UpdateWindow(seg: Segment, now: nat)
      requires Valid() && st != Closed
      modifies s`wnd, s`wl1, s`wl2, s`nxt, s`tx, s`finSent, t, o
      ensures Valid() && Extends(old(Abs()), Abs()) && Pushed(old(Abs()), now, Abs())
      ensures if old(InSendWindow(seg.ackno)) && Newer(old(Gauge()), seg)
        then s.wnd == seg.wnd && Gauge() == old(Gauge()).(wl1 := seg.seqno, wl2 := seg.ackno)
        else s.wnd == old(s.wnd) && Gauge() == old(Gauge())
      ensures if old(InSendWindow(seg.ackno)) && Newer(old(Gauge()), seg) && old(s.wnd) == 0 && seg.wnd > 0
        then Sending(st) ==> Drained(Abs(), s.wnd)
        else s.tx == old(s.tx)
    {
      hide Wrap, SignedDiff, Core, Inv, Extends, Sends, Exhausted, SendHalf.Valid, ReceiveHalf.Valid, ByteRing.Valid;
      hide Tcb.InSendWindow;
      ghost var c := Abs();
      ExtendsRefl(c);
      PushedRefl(c, now);
      if InSendWindow(seg.ackno) {
        if SeqLt(s.wl1, seg.seqno) || (s.wl1 == seg.seqno && SeqLe(s.wl2, seg.ackno)) {
          var wasZero := s.wnd == 0;
          SetWindow(seg);
          ghost var d := Abs();
          if wasZero && seg.wnd > 0 {
            Drive(now);
            WindowThenPush(c, d, now, Abs());
            ExtendsTrans(c, d, Abs());
          } else {
            WindowKeepsInv(c, seg.wnd, Gauge());
          }
        }
      }
    }

    method SetWindow(seg: Segment)
      requires Valid() && st != Closed
      modifies s`wnd, s`wl1, s`wl2
      ensures Consistent() && Extends(old(Abs()), Abs()) && FlowInv(Gauge())
      ensures Abs() == old(Abs()).(pace := old(Abs()).pace.(sndWnd := seg.wnd, flow := Gauge()))
      ensures Gauge() == old(Gauge()).(wl1 := seg.seqno, wl2 := seg.ackno)
    {
      hide Wrap, Core, Inv, Extends, SendHalf.Valid, ReceiveHalf.Valid, ByteRing.Valid;
      ghost var c := Abs();
      InvIsCore(c);
      LiveTimer(c);
      s.SetWindow(seg.wnd, seg.seqno, seg.ackno);
      WindowKeepsCore(c, seg.wnd, Gauge());
    }

    /** Of the positions up to SND.UNA the window test passes SND.UNA itself, and one exactly 2^31 below SND.NXT. */
    lemma AckStands(a: int)
      requires s.Valid() && (a < s.tx.una ==> s.tx.nxt - HALF <= a) && a <= s.tx.una
      ensures InSendWindow(Wrap(s.iss + a)) <==> a == s.tx.una || a == s.tx.una - HALF
    {
      s.Flight();
      AckInWindow(s.iss, a, s.tx);
    }

    /** New data acknowledged: credit it, then send what the freed window allows. */
    method TakeNewAck(seg: Segment, now: nat, ghost a: nat) returns (ghost d: Conn)
      requires Valid() && st != Closed && !Handshaking(st) && seg.ackno == Wrap(s.iss + a)
      requires a == AckPos(Abs(), seg) && s.tx.una < a <= s.tx.nxt
      modifies this`st, this`timewaitDeadline, s`una, s`nxt, s`tx, s`finSent, s.ring, t, g, o
      ensures Valid() && Extends(old(Abs()), Abs()) && Pushed(d, now, Abs()) && Credited(old(Abs()), seg, now, d)
      ensures (st != Closed ==> InSendWindow(seg.ackno)) && 0 < d.pace.rtt.rto
      ensures g.cwnd == CwndAfter(old(Abs()), seg) && Gauge() == FlowAcked(old(Abs()), seg) && s.wnd == old(s.wnd)
      ensures Sending(st) ==> Drained(Abs(), s.wnd)
    {
      hide Wrap, Unwrap, Core, Inv, Extends, Sends, Exhausted, Pushed, Credited, StateOf, GrownWindow, DataAcked, Sound;
      hide Tcb.InSendWindow, SendHalf.Valid, ReceiveHalf.Valid, ByteRing.Valid;
      ghost var c := Abs();
      InvIsCore(c);
      LiveFacts(c);
      NewAck(seg, now, a);
      d := Abs();
      if st == Closed {
        CoreIsSound(d);
        Free();
        ExtendsTrans(c, d, Abs());
        CreditedFreed(c, seg, now, d);
        d := Abs();
        PushedRefl(d, now);
      } else {
        CreditedUna(c, seg, now, d, a);
        Drive(now);
        ExtendsTrans(c, d, Abs());
        PushedUna(d, now, Abs());
        AckStands(a);
      }
    }

    /** Nothing new acknowledged: a duplicate counts, anything else does not. */
    method TakeOldAck(seg: Segment, now: nat, ghost a: int)
      requires Valid() && st != Closed && !Handshaking(st) && a == AckPos(Abs(), seg) <= s.tx.una
      requires s.tx.nxt - HALF <= a && seg.ackno == Wrap(s.iss + a)
      modifies s`nxt, s`tx, s`finSent, t, g, o
      ensures Valid() && Extends(old(Abs()), Abs()) && Pushed(old(Abs()), now, Abs())
      ensures InSendWindow(seg.ackno) <==> a == old(s.tx.una) || a == old(s.tx.una) - HALF
      ensures g.cwnd == CwndAfter(old(Abs()), seg) && Gauge() == FlowAcked(old(Abs()), seg)
      ensures IsThird(old(Abs()), seg) ==> |old(o.sent)| < |o.sent| && Retransmits(old(Abs()), o.sent[|old(o.sent)|])
      ensures Sending(st) && Drives(old(Abs()), seg) ==> Drained(Abs(), s.wnd)
      ensures !Drives(old(Abs()), seg) ==> s.tx == old(s.tx)
    {
      hide Exhausted, Wrap, SeqLe, Unwrap, Core, Inv, Extends, Pushed, DuplicateWindow, Tcb.InSendWindow;
      hide SendHalf.Valid, ReceiveHalf.Valid, ByteRing.Valid, SignedDiff, GrownWindow, DataAcked, Retransmits, Halved;
      ghost var c := Abs();
      InvIsCore(c);
      LiveFacts(c);
      s.Flight();
      OldAck(s.iss, s.tx, a);
      ExtendsRefl(c);
      PushedRefl(c, now);
      if seg.ackno == s.una && |seg.data| == 0 && seg.SeqLen() == 0 && seg.wnd == s.wnd && SeqLt(s.una, s.nxt) {
        DupAck(now);
        PushedUna(c, now, Abs());
      }
      AckStands(a);
    }

    /** The two acknowledgment branches: new data acknowledged, or a duplicate. */
    method TakeAck(seg: Segment, now: nat) returns (ghost d: Conn)
      requires Valid() && st != Closed && !Handshaking(st) && AckPos(Abs(), seg) <= s.tx.nxt
      modifies this`st, this`timewaitDeadline, s`una, s`nxt, s`tx, s`finSent, s.ring, t, g, o
      ensures Valid() && Extends(old(Abs()), Abs())
      ensures Credited(old(Abs()), seg, now, d) && Pushed(d, now, Abs()) && 0 < d.pace.rtt.rto
      ensures var una, a := old(s.tx.una), AckPos(old(Abs()), seg);
        st != Closed ==> (InSendWindow(seg.ackno) <==> una <= a || a == una - HALF)
      ensures g.cwnd == CwndAfter(old(Abs()), seg) && Gauge() == FlowAcked(old(Abs()), seg) && s.wnd == old(s.wnd)
      ensures IsThird(old(Abs()), seg) ==> |old(o.sent)| < |o.sent| && Retransmits(old(Abs()), o.sent[|old(o.sent)|])
      ensures Sending(st) && Drives(old(Abs()), seg) ==> Drained(Abs(), s.wnd)
      ensures !Drives(old(Abs()), seg) ==> s.tx == old(s.tx)
    {
      hide Wrap, SignedDiff, Unwrap, Core, Inv, Extends, Pushed, Credited, CwndAfter, FlowAcked, Retransmits, Drained;
      hide Tcb.InSendWindow, SendHalf.Valid, ReceiveHalf.Valid, ByteRing.Valid;
      ghost var c := Abs();
      ghost var a := AckPos(c, seg);
      InvIsCore(c);
      LiveFacts(c);
      TimeoutPositive(c);
      s.Flight();
      UnwrapWraps(s.iss, s.tx.nxt, seg.ackno);
      Compare(s.iss, a, s.tx.una);
      d := c;
      if SeqGt(seg.ackno, s.una) {
        d := TakeNewAck(seg, now, a);
      } else {
        NothingAcked(c, seg, now);
        TakeOldAck(seg, now, a);
      }
    }

    /** The acknowledgment field of a processed segment. */
    method ProcessAck(seg: Segment, now: nat)
      requires Valid() && st != Closed && !Handshaking(st) && AckPos(Abs(), seg) <= s.tx.nxt
      modifies this`st, this`timewaitDeadline, s, s.ring, t, g, o
      ensures Valid() && AckSpec(old(Abs()), seg, now, Abs()) && Extends(old(Abs()), Abs())
    {
      hide Wrap, Unwrap, Core, Inv, Extends, Pushed, Credited, AckSpec, CwndAfter, FlowAcked, Newer, IsThird;
      hide Retransmits, Tcb.InSendWindow, SendHalf.Valid, ReceiveHalf.Valid;
      ghost var c := Abs();
      InvIsCore(c);
      LiveSends(c);
      ghost var d := TakeAck(seg, now);
      FlowAckedKeeps(c, seg);
      if st != Closed {
        ghost var e := Abs();
        UpdateWindow(seg, now);
        PushedTrans(d, e, Abs(), now);
        PushedLog(e, now, Abs());
        ExtendsTrans(c, e, Abs());
        DrivenOnce(c, seg, now, d, e, Abs());
      }
      AckSpecPushed(c, seg, now, d, Abs());
    }

    /** `tcp_rx_payload`: receive the text, and acknowledge it now or later. */
    method TakeText(seg: Segment, now: nat, ghost pos: int)
      requires Parts() && r.synced && !r.eof && 0 < |seg.data| <= RING
      requires o.delackDeadline != 0 ==> o.delackPending >= 1
      requires seg.seqno == Wrap(r.irs + pos) && r.rx.RcvNxt() - 2 * RING <= pos <= r.rx.RcvNxt() + RING
      modifies r`nxt, r`rx, r.ring, r.ring.buf, r.ooo, r.ooo.nodes, o
      ensures Parts() && TextTaken(old(Abs()), pos, seg.data, now, Abs())
      ensures forall x :: x in r.ooo.nodes ==> x in old(r.ooo.nodes) || fresh(x)
    {
      hide Wrap, Receive, Kind, Build, SendHalf.Valid, ReceiveHalf.Valid, ByteRing.Valid, Queue.Valid;
      ghost var c := Abs();
      var v := r.Payload(seg.seqno, seg.data, pos);
      r.Facts();
      ghost var d := Abs();
      var ackNow := v == Duplicate || v == Hole;
      if v == InOrder {
        ackNow := Owe(now);
      }
      if ackNow {
        AckedPays(d, Abs());
        SendAck();
      }
    }

    /** One more segment in order: every second one is acknowledged at once, the other within 40 milliseconds. */
    method Owe(now: nat) returns (ackNow: bool)
      requires Parts() && (o.delackDeadline != 0 ==> o.delackPending >= 1)
      modifies o`delackPending, o`delackDeadline
      ensures Parts() && ackNow == (old(o.delackPending) >= 1)
      ensures !ackNow ==> o.Due() == Owed(1, now + DELACK, o.advertised)
    {
      hide Wrap, SendHalf.Valid, ReceiveHalf.Valid;
      o.delackPending := o.delackPending + 1;
      if o.delackPending >= 2 {
        return true;
      } else if o.delackDeadline == 0 {
        o.delackDeadline := now + DELACK;
      }
      return false;
    }

    /** Segment text, with the acknowledgment `tcp_rx_payload` chooses for it. */
    method ProcessText(seg: Segment, now: nat, ghost pos: int)
      requires Valid() && Receiving(st) && r.synced && 0 < |seg.data| <= RING
      requires seg.seqno == Wrap(r.irs + pos) && r.rx.RcvNxt() - 2 * RING <= pos <= r.rx.RcvNxt() + RING
      modifies r`nxt, r`rx, r.ring, r.ring.buf, r.ooo, r.ooo.nodes, o
      ensures Valid() && Extends(old(Abs()), Abs()) && TextTaken(old(Abs()), pos, seg.data, now, Abs())
      ensures forall x :: x in r.ooo.nodes ==> x in old(r.ooo.nodes) || fresh(x)
    {
      hide Wrap, Core, Inv, Extends, TextTaken, SendHalf.Valid, ReceiveHalf.Valid, ByteRing.Valid, Queue.Valid;
      ghost var c := Abs();
      NotEof(c);
      InvIsCore(c);
      OwingCounts(c);
      r.Facts();
      TakeText(seg, now, pos);
      TextTakenKeepsInv(c, pos, seg.data, now, Abs());
    }

    /** Consume the peer's FIN and acknowledge it. */
    method ConsumeFin()
      requires Parts() && r.synced && !r.eof && 0 <= r.rx.Window()
      modifies r`nxt, r`eof, r`rx, o
      ensures Parts() && Abs() == Acked(old(Abs()).(rx := old(r.rx).(eof := true)))
    {
      hide Wrap, SendHalf.Valid, ReceiveHalf.Valid, ByteRing.Valid;
      r.TakeFin();
      SendAck();
    }

    /** The state after the peer's FIN. */
    method Enter(now: nat)
      requires Parts() && Receiving(st)
      modifies this`st, this`timewaitDeadline, t`deadline, o`delackDeadline
      ensures Parts()
      ensures st == if old(st) == Established then CloseWait else if old(st) == FinWait1 then Closing else TimeWait
      ensures t.deadline == (if old(st) == FinWait2 then 0 else old(t.deadline))
      ensures o.delackDeadline == (if old(st) == FinWait2 then 0 else old(o.delackDeadline))
      ensures timewaitDeadline == (if old(st) == FinWait2 then now + 2 * MSL else old(timewaitDeadline))
    {
      hide Wrap, SendHalf.Valid, ReceiveHalf.Valid;
      if st == Established {
        st := CloseWait;
      } else if st == FinWait1 {
        st := Closing;
      } else {
        EnterTimeWait(now);
      }
    }

    /** Consume and acknowledge the FIN, then move the state. */
    method TakeFin(now: nat)
      requires Parts() && Receiving(st) && r.synced && !r.eof && 0 <= r.rx.Window()
      requires st == FinWait2 ==> t.deadline == 0
      requires StateOf(s.tx, true) ==
        (if st == Established then CloseWait else if st == FinWait1 then Closing else TimeWait)
      modifies this`st, this`timewaitDeadline, r`nxt, r`eof, r`rx, t`deadline, o
      ensures Parts() && 0 <= FinConsumed(old(Abs()), now).rx.Window() && Abs() == Acked(FinConsumed(old(Abs()), now))
    {
      hide Wrap, StateOf, Build, Tcb.Parts;
      ghost var c := Abs();
      ConsumeFin();
      Enter(now);
      AckedMoves(c.(rx := c.rx.(eof := true)), FinConsumed(c, now));
    }

    /** A FIN at the next expected position: consume it, acknowledge it, move the state. */
    method ProcessFin(now: nat)
      requires Valid() && Receiving(st) && r.synced
      modifies this`st, this`timewaitDeadline, r`nxt, r`eof, r`rx, t`deadline, o
      ensures Valid() && Extends(old(Abs()), Abs())
      ensures 0 <= FinConsumed(old(Abs()), now).rx.Window() && Abs() == Acked(FinConsumed(old(Abs()), now))
    {
      hide Wrap, Core, Inv, Extends, StateOf, Acked, SendHalf.Valid, ReceiveHalf.Valid, ByteRing.Valid;
      ghost var c := Abs();
      WindowOpen(c);
      NotEof(c);
      FinState(c);
      r.Facts();
      TakeFin(now);
      FinKeepsInv(c, FinConsumed(c, now).pace.waitUntil);
    }

    /** A FIN at the next expected position in TIME_WAIT: acknowledge, wait again. */
    method RepeatFin(now: nat)
      requires Valid() && r.synced && st == TimeWait
      modifies this`timewaitDeadline, o
      ensures Valid() && Extends(old(Abs()), Abs()) && 0 <= old(r.rx).Window()
      ensures Abs() == Acked(old(Abs())).(pace := Paid(old(Abs())).(waitUntil := now + 2 * MSL))
    {
      hide Wrap, Core, Inv, Extends, Build, SendHalf.Valid, ReceiveHalf.Valid, ByteRing.Valid;
      ghost var c := Abs();
      WindowOpen(c);
      AckedKeepsInv(c);
      SendAck();
      ghost var d := Abs();
      timewaitDeadline := now + 2 * MSL;
      InvIsCore(d);
      LiveTimer(d);
      PaceKeepsCore(d, Abs().pace);
      NotSending(Abs());
      ExtendsTrans(c, d, Abs());
    }

    /** The fields set when our SYN is acknowledged. */
    method EnterEstablished(seg: Segment)
      requires Parts() && s.tx.una == 0 && seg.ackno == Wrap(s.iss + 1)
      modifies this`st, s`una, s`tx, s`wnd, s`wl1, s`wl2, t, g
      ensures Parts() && Enters(old(Abs()), seg, Abs()) && FlowInv(Gauge())
    {
      hide Wrap, SendHalf.Valid, ReceiveHalf.Valid;
      st := Established;
      s.SynAcked(seg.ackno, seg.wnd, seg.seqno);
      g.Start(s.mss);
      t.Stop();
    }

    /** SYN-RECEIVED: our SYN is acknowledged. */
    method Establish(seg: Segment)
      requires Valid() && st == SynRcvd && seg.ackno == Wrap(s.iss + 1)
      modifies this`st, s`una, s`tx, s`wnd, s`wl1, s`wl2, t, g
      ensures Valid() && Extends(old(Abs()), Abs()) && st == Established && Enters(old(Abs()), seg, Abs())
    {
      hide Wrap, Core, Inv, Extends, SendHalf.Valid, ReceiveHalf.Valid, ByteRing.Valid;
      ghost var c := Abs();
      InvIsCore(c);
      LiveFacts(c);
      EnterEstablished(seg);
      EstablishedKeepsInv(c, Abs().pace);
    }

    /** Acknowledgment, first phase: complete a pending handshake, then take the acknowledgment. */
    method ProcessAckField(seg: Segment, now: nat)
      requires Valid() && st != Closed && r.synced && Processed(Abs(), seg)
      modifies this`st, this`timewaitDeadline, s, s.ring, t, g, o
      ensures Valid() && AckSpec(old(Abs()), seg, now, Abs()) && Extends(old(Abs()), Abs())
    {
      hide Wrap, Unwrap, Core, Inv, Extends, AckSpec, Acceptable, SendHalf.Valid, ReceiveHalf.Valid;
      ghost var c := Abs();
      InvIsCore(c);
      LiveFacts(c);
      s.Flight();
      if st == SynRcvd {
        HandshakePos(c, seg);
        Establish(seg);
        ghost var d := Abs();
        ProcessAck(seg, now);
        HandshakeAck(c, seg, now, d, Abs());
        ExtendsTrans(c, d, Abs());
      } else {
        ProcessAck(seg, now);
      }
    }

    /** Step eight: a FIN that sits at the next expected position. */
    method CheckFin(seg: Segment, now: nat)
      requires Valid() && st != Closed && r.synced
      modifies this`st, this`timewaitDeadline, r`nxt, r`eof, r`rx, t`deadline, o
      ensures Valid() && Extends(old(Abs()), Abs()) && st != Closed
      ensures FinPhase(old(Abs()), seg, now, Abs())
    {
      hide Wrap, Core, Inv, Extends, Build, SendHalf.Valid, ReceiveHalf.Valid, ByteRing.Valid;
      ExtendsRefl(Abs());
      WindowOpen(Abs());
      r.Facts();
      if seg.fin && Wrap(seg.seqno + |seg.data|) == r.nxt {
        if Receiving(st) {
          FinState(Abs());
          ProcessFin(now);
        } else if st == TimeWait {
          RepeatFin(now);
        }
      }
    }

    /** Step seven: segment text, in a state that takes it. */
    method CheckText(seg: Segment, now: nat, ghost pos: int)
      requires Valid() && r.synced && |seg.data| <= RING
      requires seg.seqno == Wrap(r.irs + pos) && r.rx.RcvNxt() - 2 * RING <= pos <= r.rx.RcvNxt() + RING
      modifies r`nxt, r`rx, r.ring, r.ring.buf, r.ooo, r.ooo.nodes, o
      ensures Valid() && Extends(old(Abs()), Abs()) && TextPhase(old(Abs()), seg, pos, now, Abs())
      ensures st == old(st) && r.synced
      ensures forall x :: x in r.ooo.nodes ==> x in old(r.ooo.nodes) || fresh(x)
    {
      hide Wrap, Core, Inv, Extends, TextTaken, SendHalf.Valid, ReceiveHalf.Valid, ByteRing.Valid;
      if |seg.data| > 0 && Receiving(st) {
        ghost var c := Abs();
        ProcessText(seg, now, pos);
        StillSynced(c, Abs());
      } else {
        ExtendsRefl(Abs());
      }
    }

    /** Steps seven and eight: segment text and FIN, on a connection the acknowledgment has left alive. */
    method ProcessTextAndFin(seg: Segment, now: nat, ghost c: Conn)
      requires Valid() && st != Closed && r.synced && AckSpec(c, seg, now, Abs()) && c.synced && c.st != Closed
      requires Core(c) && AckPos(c, seg) <= c.tx.nxt && Acceptable(c, seg) && ReceiveInv(c.rx) && |seg.data| + 2 <= RING
      modifies this`st, this`timewaitDeadline, r`nxt, r`eof, r`rx, r.ring, r.ring.buf, r.ooo, r.ooo.nodes, t`deadline, o
      ensures Valid() && Extends(old(Abs()), Abs()) && st != Closed
      ensures r.rx == RxAfter(c, seg) && Owing(c, seg, now, Abs()) && WaitSet(c, seg, now, Abs())
      ensures old(o.sent) <= o.sent
      ensures Abs() == old(Abs()).(rx := r.rx, st := st, pace := Abs().pace, sent := o.sent)
      ensures Abs().pace == old(Abs()).pace.(owed := Abs().pace.owed, waitUntil := timewaitDeadline)
      ensures forall x :: x in r.ooo.nodes ==> x in old(r.ooo.nodes) || fresh(x)
    {
      hide Wrap, Unwrap, Core, Inv, Extends, Acceptable, RxAfter, RxText, AckSpec, SendHalf.Valid, TextPhase, FinPhase;
      hide ReceiveHalf.Valid, ByteRing.Valid, Owing, WaitSet, ReceiveInv;
      ghost var d := Abs();
      AckKeepsSync(c, seg, now, d);
      CoreReceives(c);
      TextNear(c, seg);
      CheckText(seg, now, SegPos(c, seg));
      ghost var e := Abs();
      CheckFin(seg, now);
      PhasesMeet(c, seg, now, d, e, Abs());
      ExtendsTrans(d, e, Abs());
    }

    /** A segment that reaches acknowledgment processing: all three phases. */
    method Process(seg: Segment, now: nat, backlogFull: bool)
      requires Valid() && st != Closed && r.synced && Processed(Abs(), seg) && |seg.data| + 2 <= RING
      modifies this, s, s.ring, r, r.ring, r.ring.buf, r.ooo, r.ooo.nodes, t, g, o
      ensures Valid() && ProcessedSpec(old(Abs()), seg, now, backlogFull, Abs()) && Extends(old(Abs()), Abs())
      ensures forall x :: x in r.ooo.nodes ==> x in old(r.ooo.nodes) || fresh(x)
    {
      hide Wrap, Unwrap, Core, Inv, Extends, AckSpec, ProcessedSpec, Acceptable, ReceiveInv, Freed, Reset, RxAfter;
      hide Sound, Enters, Owing, WaitSet, SendHalf.Valid, ReceiveHalf.Valid;
      ghost var c := Abs();
      InvIsCore(c);
      CoreReceives(c);
      if st == SynRcvd && backlogFull {
        s.Flight();
        LiveFacts(c);
        LiveTimer(c);
        HandshakePos(c, seg);
        Establish(seg);
        ghost var d := Abs();
        InvIsCore(d);
        CoreIsSound(d);
        ResetAndFree(false);
        BacklogEnds(c, seg, now, d, Abs());
        ExtendsTrans(c, d, Abs());
        return;
      }
      ProcessAckField(seg, now);
      ghost var d := Abs();
      if st == Closed {
        EndProcesses(c, seg, now, backlogFull, d);
        return;
      }
      AckKeepsSync(c, seg, now, d);
      ProcessTextAndFin(seg, now, c);
      PhasesProcess(c, seg, now, backlogFull, d, Abs());
      ExtendsTrans(c, d, Abs());
    }

    /** `tcp_send_reset_for`: never answer a RST with a RST. */
    method SendResetFor(seg: Segment)
      requires Valid()
      modifies o
      ensures Valid() && Abs() == Refused(old(Abs()), seg) && Extends(old(Abs()), Abs())
    {
      hide Wrap, Inv, Core, Extends, SendHalf.Valid, ReceiveHalf.Valid, ByteRing.Valid;
      ghost var c := Abs();
      ExtendsRefl(c);
      if !seg.rst {
        var reset := ResetFor(seg);
        o.sent := o.sent + [Sent(reset, 0, 0)];
        ResetKeepsInv(c, Sent(reset, 0, 0));
      }
    }

    /** SYN-SENT: the peer's SYN fixes the origin of its stream and our segment size. */
    method LearnPeer(seg: Segment)
      requires Parts() && !r.synced
      modifies s`mss, r
      ensures Parts() && Abs() == Joined(old(Abs()), seg) && r.synced && FlowInv(Gauge())
    {
      hide Wrap, SendHalf.Valid, ReceiveHalf.Valid;
      r.Sync(seg.seqno);
      s.SetMss(EffectiveMss(seg.mss));
    }

    /** SYN-SENT: the peer's SYN acknowledges ours. */
    method SynAckArrives(seg: Segment)
      requires Valid() && st == SynSent && seg.ackno == Wrap(s.iss + 1)
      modifies this`st, s`una, s`tx, s`wnd, s`wl1, s`wl2, s`mss, r, t, g, o
      ensures Valid() && Extends(old(Abs()), Abs()) && 0 <= old(r.rx).Window()
      ensures Abs() == Acked(JoinedAcked(old(Abs()), seg))
    {
      hide Wrap, Core, Inv, Extends, Build, SendHalf.Valid, ReceiveHalf.Valid, ByteRing.Valid;
      ghost var c := Abs();
      InvIsCore(c);
      LiveFacts(c);
      LearnPeer(seg);
      ghost var d := Abs();
      EnterEstablished(seg);
      JoinedEnters(c, seg, d, Abs());
      JoinedKeepsInv(c, seg.seqno, Abs().pace);
      SendAck();
    }

    /** Answer the peer's SYN with our own and its acknowledgment. */
    method AnswerSyn(now: nat)
      requires Parts() && r.synced && t.deadline != 0
      modifies this`st, t`deadline, o
      ensures Parts() && 0 <= r.rx.Window()
      ensures var d := old(Abs()).(st := SynRcvd);
        Abs() == d.(sent := d.sent + [Build(d, 0, [], true, true, false)], pace := Paid(d))
    {
      hide Wrap, SendHalf.Valid, ReceiveHalf.Valid, ByteRing.Valid;
      st := SynRcvd;
      s.Flight();
      r.Facts();
      WrapWord(s.iss);
      ghost var e := SendSegment(s.iss, 0, 0, true, true, false, false, 0);
      t.Arm(now);
    }

    /** SYN-SENT: simultaneous open. */
    method SynArrives(seg: Segment, now: nat)
      requires Valid() && st == SynSent
      modifies this`st, s`mss, r, t`deadline, o
      ensures Valid() && Extends(old(Abs()), Abs()) && 0 <= old(r.rx).Window()
      ensures var d := Joined(old(Abs()), seg).(st := SynRcvd);
        Abs() == d.(sent := d.sent + [Build(d, 0, [], true, true, false)], pace := Paid(d))
    {
      hide Wrap, Core, Inv, Extends, Build, SendHalf.Valid, ReceiveHalf.Valid, ByteRing.Valid;
      ghost var c := Abs();
      InvIsCore(c);
      LiveFacts(c);
      SynSentPos(c, seg);
      LearnPeer(seg);
      AnswerSyn(now);
      SimultaneousKeepsInv(c, seg.seqno, Gauge());
    }

    /** SYN-SENT, section 3.10.7.3 of RFC 9293. */
    method InputSynSent(seg: Segment, now: nat)
      requires Valid() && st == SynSent
      modifies this`st, s`una, s`tx, s`wnd, s`wl1, s`wl2, s`mss, r, t, g, o
      ensures Valid() && 0 <= old(r.rx).Window() && SynSentSpec(old(Abs()), seg, Abs()) && Extends(old(Abs()), Abs())
    {
      hide Wrap, Unwrap, SeqLe, SeqGt, Core, Inv, Extends, Freed, Sound, Build, SendHalf.Valid, ReceiveHalf.Valid;
      ghost var c := Abs();
      InvIsCore(c);
      SynSentPos(c, seg);
      s.Flight();
      ExtendsRefl(c);
      if seg.acks && (SeqLe(seg.ackno, s.iss) || SeqGt(seg.ackno, s.nxt)) {
        SendResetFor(seg);
      } else if seg.rst {
        if seg.acks {
          CoreIsSound(c);
          Free();
        }
      } else if seg.syn {
        if seg.acks {
          SynAckArrives(seg);
        } else {
          SynArrives(seg, now);
        }
      }
    }

    /** `tcp_input` for a segment that belongs to this block. */
    method Input(seg: Segment, now: nat, backlogFull: bool)
      requires Valid() && st != Closed && |seg.data| + 2 <= RING
      modifies this, s, s.ring, r, r.ring, r.ring.buf, r.ooo, r.ooo.nodes, t, g, o
      ensures Valid() && 0 <= old(r.rx).Window() && InputSpec(old(Abs()), seg, now, backlogFull, Abs())
      ensures Extends(old(Abs()), Abs())
      ensures forall x :: x in r.ooo.nodes ==> x in old(r.ooo.nodes) || fresh(x)
    {
      hide Wrap, Unwrap, SignedDiff, Core, Inv, Extends, SynSentSpec, Acceptable, ProcessedSpec, Freed, Sound;
      hide SendHalf.Valid, ReceiveHalf.Valid, AcceptableWord, Build;
      ghost var c := Abs();
      InvIsCore(c);
      CoreReceives(c);
      LiveFacts(c);
      ExtendsRefl(c);
      if st == SynSent {
        InputSynSent(seg, now);
        return;
      }
      AcceptableExact(c, seg);
      AckedKeepsInv(c);
      s.Flight();
      r.Facts();
      if !AcceptableWord(seg.seqno, seg.SeqLen(), r.nxt, r.Window()) {
        if !seg.rst {
          SendAck();
        }
        return;
      }
      if seg.rst {
        if seg.seqno == r.nxt {
          CoreIsSound(c);
          Free();
        } else {
          SendAck();
        }
        return;
      }
      if seg.syn {
        SendAck();
        return;
      }
      if !seg.acks {
        return;
      }
      InputAck(seg, now, backlogFull);
    }

    /** Step five onwards, for an in-window segment with an acknowledgment. */
    method InputAck(seg: Segment, now: nat, backlogFull: bool)
      requires Valid() && st != Closed && r.synced && |seg.data| + 2 <= RING
      requires Acceptable(Abs(), seg) && !seg.rst && !seg.syn && seg.acks
      modifies this, s, s.ring, r, r.ring, r.ring.buf, r.ooo, r.ooo.nodes, t, g, o
      ensures Valid() && Extends(old(Abs()), Abs())
      ensures var c := old(Abs());
        if Processed(c, seg) then ProcessedSpec(c, seg, now, backlogFull, Abs())
        else if c.st == SynRcvd then Abs() == Refused(c, seg)
        else 0 <= c.rx.Window() && Abs() == Acked(c)
      ensures forall x :: x in r.ooo.nodes ==> x in old(r.ooo.nodes) || fresh(x)
    {
      hide Wrap, Unwrap, SignedDiff, Core, Inv, Extends, Acceptable, ProcessedSpec, Build, SendHalf.Valid;
      hide ReceiveHalf.Valid;
      ghost var c := Abs();
      InvIsCore(c);
      CoreReceives(c);
      LiveFacts(c);
      s.Flight();
      AckCompare(c, seg);
      if st == SynRcvd && !(SeqLt(s.una, seg.ackno) && SeqLe(seg.ackno, s.nxt)) {
        SendResetFor(seg);
        return;
      }
      if SeqGt(seg.ackno, s.nxt) {
        AckedKeepsInv(c);
        SendAck();
        return;
      }
      Process(seg, now, backlogFull);
    }
  }
}
