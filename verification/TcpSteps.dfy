/** The elementary moves of a connection, each shown to keep its invariant. */
module TcpSteps {
  import opened SeqSpace
  import opened ByteRings
  import opened TcpSpec
  import opened TcpEvents

  lemma ExtendsRefl(c: Conn)
    ensures Extends(c, c)
  {
  }

  lemma ExtendsTrans(a: Conn, b: Conn, c: Conn)
    requires Extends(a, b) && Extends(b, c)
    ensures Extends(a, c)
  {
    LogExtendsTrans(a, b, c);
  }

  lemma LogExtendsTrans(a: Conn, b: Conn, c: Conn)
    requires LogExtends(a, b) && LogExtends(b, c) && RxExtends(a.rx, b.rx)
    ensures LogExtends(a, c)
  {
    forall i | |a.sent| <= i < |c.sent| ensures Offers(a.rx, c.sent[i]) {
      if i < |b.sent| {
        assert c.sent[i] == b.sent[i];
      }
    }
  }

  lemma SendingFacts(c: Conn)
    requires Core(c) && Sending(c.st)
    ensures c.synced && 1 <= c.tx.una <= c.tx.nxt && 0 <= c.rx.Window() && (c.tx.finSent ==> c.tx.una < c.tx.nxt)
  {
  }

  lemma ExtendsNxt(c: Conn, c': Conn)
    requires Extends(c, c')
    ensures c.tx.nxt <= c'.tx.nxt
  {
  }

  lemma WindowOpen(c: Conn)
    requires Inv(c)
    ensures 0 <= c.rx.Window()
  {
  }

  /** The bare acknowledgment does not depend on the state. */
  lemma AckedSame(c: Conn, d: Conn)
    requires 0 <= c.rx.Window() && d == c.(st := d.st)
    ensures Acked(d) == Acked(c).(st := d.st)
  {
  }

  /** Nor on what was owed. */
  lemma AckedPays(c: Conn, d: Conn)
    requires 0 <= c.rx.Window() && d == c.(pace := c.pace.(owed := d.pace.owed))
    ensures Acked(d) == Acked(c)
  {
  }

  lemma AckedMoves(c: Conn, d: Conn)
    requires 0 <= c.rx.Window() && d == c.(st := d.st, pace := c.pace.(waitUntil := d.pace.waitUntil))
    ensures Acked(d) == Acked(c).(st := d.st, pace := Paid(c).(waitUntil := d.pace.waitUntil))
  {
  }

  lemma NotEof(c: Conn)
    requires Inv(c) && Receiving(c.st)
    ensures !c.rx.eof
  {
  }

  /** Where the peer's FIN leads the state. */
  lemma FinState(c: Conn)
    requires Inv(c) && Receiving(c.st)
    ensures StateOf(c.tx, true) ==
      (if c.st == Established then CloseWait else if c.st == FinWait1 then Closing else TimeWait)
    ensures c.st == FinWait2 ==> c.pace.rtoAt == 0
  {
    hide OwedInv, KarnInv, LogInv;
  }

  lemma CoreReceives(c: Conn)
    requires Core(c)
    ensures ReceiveInv(c.rx) && 0 <= c.rx.Window() <= RING
  {
  }

  lemma InvIsCore(c: Conn)
    requires Inv(c)
    ensures Core(c)
  {
  }

  lemma LiveFacts(c: Conn)
    requires Core(c) && c.st != Closed
    ensures 0 <= c.rx.Window() && (Handshaking(c.st) <==> c.tx.una == 0) && (c.st == SynSent <==> !c.synced)
    ensures c.pace.rtoAt != 0 <==> c.tx.una != c.tx.nxt
    ensures c.tx.una <= c.tx.nxt
  {
  }

  lemma LiveTimer(c: Conn)
    requires Core(c) && c.st != Closed
    ensures TimerInv(c.tx, c.pace)
  {
  }

  lemma NotClosed(c: Conn)
    requires Core(c) && (c.st == Established || c.st == CloseWait)
    ensures !c.tx.closed && c.rx.eof == (c.st == CloseWait)
  {
  }

  lemma HandshakeUnread(c: Conn)
    requires Core(c) && c.st != Closed
    ensures Handshaking(c.st) ==> c.rx.Unread() == [] && !c.rx.eof
  {
  }

  // ---------------------------------------------------------------- the log and the invariants about it

  /** Nothing was sent, and nothing that the peer is told of changed. */
  lemma QuietKeeps(c: Conn, c': Conn)
    requires OwedInv(c) && KarnInv(c) && c'.sent == c.sent && c'.synced == c.synced && c'.rx == c.rx
    requires c'.pace.owed == c.pace.owed && (c.synced ==> c'.pace.flow.mss == c.pace.flow.mss)
    requires c'.pace.rtt.timing ==> c.pace.rtt.timing && c'.pace.rtt.upTo == c.pace.rtt.upTo
    ensures OwedInv(c') && KarnInv(c')
  {
    hide Bears;
    if c.synced {
      StillTold(c, c');
    }
  }

  /** Everything in the log ends at SND.NXT or before. */
  lemma LogBelow(c: Conn, i: nat, pos: int)
    requires LogInv(c) && i < |c.sent| && c.tx.nxt <= pos
    ensures !Bears(c.sent[i], pos)
  {
    assert Faithful(c, c.sent[i]);
  }

  /** New text at SND.NXT, timed or not. */
  lemma KarnText(c: Conn, c': Conn, e: Sent)
    requires LogInv(c) && KarnInv(c) && c'.sent == c.sent + [e] && e.pos == c.tx.nxt
    requires (c.pace.rtt.timing ==> c.pace.rtt.upTo <= c.tx.nxt) && e.seg.data != []
    requires c'.pace.rtt == c.pace.rtt || (!c.pace.rtt.timing && c'.pace.rtt.upTo == e.pos + |e.seg.data|)
    ensures KarnInv(c')
  {
    hide Faithful, LogInv;
    if c'.pace.rtt == c.pace.rtt {
      KarnGrows(c, c');
    } else {
      forall i | 0 <= i < |c.sent| ensures !Bears(c'.sent[i], c'.pace.rtt.upTo - 1) {
        LogBelow(c, i, c'.pace.rtt.upTo - 1);
      }
    }
  }

  // ---------------------------------------------------------------- segments sent

  function Clocked(p: Pace, now: nat): nat { if p.rtoAt == 0 then now + p.rtt.rto else p.rtoAt }

  function TimedUpTo(m: Rtt, upTo: nat, now: nat): Rtt {
    if m.timing then m else m.(timing := true, upTo := upTo, since := now)
  }

  /** `c` after new text `e` has been sent at `snd_nxt`, with this timer and this measurement. */
  function SentText(c: Conn, e: Sent, rtoAt: nat, rtt: Rtt): Conn {
    c.(tx := c.tx.(nxt := c.tx.nxt + |e.seg.data|), pace := Paid(c).(rtoAt := rtoAt, rtt := rtt), sent := c.sent + [e])
  }

  /** `n` unsent bytes of the ring, as a segment. */
  function NextText(c: Conn, n: nat): Sent
    requires 0 <= c.rx.Window() && c.tx.una <= c.tx.nxt && c.tx.nxt - c.tx.una + n <= |c.tx.Unacked()|
  {
    Build(c, c.tx.nxt, c.tx.Unacked()[c.tx.nxt - c.tx.una..c.tx.nxt - c.tx.una + n], false, true, false)
  }

  lemma TextKeepsCore(c: Conn, n: nat, rtoAt: nat, rtt: Rtt)
    requires Core(c) && Sending(c.st) && !c.tx.finSent && rtoAt != 0
    requires 0 < n <= c.pace.flow.mss && c.tx.nxt - c.tx.una + n <= |c.tx.Unacked()|
    requires rtt == c.pace.rtt || rtt == TimedUpTo(c.pace.rtt, c.tx.nxt + n, rtt.since)
    ensures Core(SentText(c, NextText(c, n), rtoAt, rtt)) && Extends(c, SentText(c, NextText(c, n), rtoAt, rtt))
  {
    hide OwedInv, KarnInv, LogInv, Faithful, TimedUpTo;
    var e := NextText(c, n);
    var c' := SentText(c, e, rtoAt, rtt);
    TextFaithful(c, n, c');
    TextExtends(c, n, rtoAt, rtt);
    LogGrows(c, c');
    JustTold(c');
    TimedRtt(c, n, rtt);
    KarnText(c, c', e);
  }

  lemma TextExtends(c: Conn, n: nat, rtoAt: nat, rtt: Rtt)
    requires Core(c) && Sending(c.st) && !c.tx.finSent && c.tx.nxt - c.tx.una + n <= |c.tx.Unacked()|
    ensures Extends(c, SentText(c, NextText(c, n), rtoAt, rtt))
  {
    hide OwedInv, KarnInv, LogInv;
  }

  lemma TimedRtt(c: Conn, n: nat, rtt: Rtt)
    requires Core(c) && Sending(c.st) && 0 < n
    requires rtt == c.pace.rtt || rtt == TimedUpTo(c.pace.rtt, c.tx.nxt + n, rtt.since)
    ensures RttInv(c.tx.(nxt := c.tx.nxt + n), rtt)
    ensures rtt == c.pace.rtt || (!c.pace.rtt.timing && rtt.upTo == c.tx.nxt + n)
    ensures c.pace.rtt.timing ==> c.pace.rtt.upTo <= c.tx.nxt
  {
    hide OwedInv, KarnInv, LogInv;
  }

  lemma TextFaithful(c: Conn, n: nat, c': Conn)
    requires Core(c) && Sending(c.st) && !c.tx.finSent && 0 < n <= c.pace.flow.mss
    requires c.tx.nxt - c.tx.una + n <= |c.tx.Unacked()|
    requires c' == c.(tx := c.tx.(nxt := c.tx.nxt + n), pace := c'.pace, sent := c'.sent) && c'.pace.flow == c.pace.flow
    ensures Faithful(c', NextText(c, n)) && |NextText(c, n).seg.data| == n
  {
    hide OwedInv, KarnInv, LogInv;
    var k := c.tx.nxt - 1;
    assert NextText(c, n).seg.data == c.tx.written[k..k + n];
  }

  /** `c` after the FIN has been sent. */
  function SentFin(c: Conn, rtoAt: nat): Conn
    requires 0 <= c.rx.Window()
  {
    c.(tx := c.tx.(nxt := c.tx.nxt + 1, finSent := true), pace := Paid(c).(rtoAt := rtoAt),
       sent := c.sent + [Build(c, c.tx.nxt, [], false, true, true)])
  }

  lemma FinKeepsCore(c: Conn, rtoAt: nat)
    requires Core(c) && Sending(c.st) && c.tx.closed && !c.tx.finSent && c.tx.nxt == |c.tx.written| + 1 && rtoAt != 0
    ensures Core(SentFin(c, rtoAt)) && Extends(c, SentFin(c, rtoAt))
  {
    hide OwedInv, KarnInv;
    LogGrows(c, SentFin(c, rtoAt));
    JustTold(SentFin(c, rtoAt));
    KarnGrows(c, SentFin(c, rtoAt));
  }

  /** The bare acknowledgment keeps the invariant. */
  lemma AckedKeepsCore(c: Conn)
    requires Core(c) && c.synced
    ensures Core(Acked(c)) && Extends(c, Acked(c))
  {
    hide OwedInv, KarnInv;
    LogGrows(c, Acked(c));
    JustTold(Acked(c));
    if c.st != Closed {
      KarnGrows(c, Acked(c));
    }
  }

  // ---------------------------------------------------------------- the send engine

  lemma {:induction false} ContiguousSnoc(es: seq<Sent>, from: nat, to: nat, e: Sent)
    requires Contiguous(es, from, to) && e.pos == to
    ensures Contiguous(es + [e], from, to + e.seg.SeqLen())
  {
    assert (es + [e])[..|es|] == es;
  }

  lemma OutputNothing(c: Conn, now: nat)
    ensures Sends(c, now, c)
  {
    assert c.sent[|c.sent|..] == [];
  }

  /** One more segment of text keeps the specification of the send engine. */
  lemma SendsMore(c: Conn, now: nat, d: Conn, e: Sent, d': Conn)
    requires Sending(c.st) && Sends(c, now, d) && e.pos == d.tx.nxt && 0 < |e.seg.data| == e.seg.SeqLen()
    requires d' == SentText(d, e, Clocked(d.pace, now), TimedUpTo(d.pace.rtt, d.tx.nxt + |e.seg.data|, now))
    requires Proper(c, e) && d.tx.finSent == c.tx.finSent && 0 < c.pace.rtt.rto
    requires TextFirst(c, d)
    ensures Sends(c, now, d')
  {
    hide Proper, Timed, Contiguous;
    ContiguousMore(c, d, e, d');
    NoneSent(c, d);
    TimedMore(c, now, d, e, d');
    ProperWithin(c, e);
  }

  lemma ContiguousMore(c: Conn, d: Conn, e: Sent, d': Conn)
    requires c.sent <= d.sent && Contiguous(d.sent[|c.sent|..], c.tx.nxt, d.tx.nxt) && e.pos == d.tx.nxt
    requires d'.sent == d.sent + [e] && d'.tx.nxt == d.tx.nxt + e.seg.SeqLen()
    ensures Contiguous(d'.sent[|c.sent|..], c.tx.nxt, d'.tx.nxt)
  {
    hide Contiguous;
    var es := d.sent[|c.sent|..];
    ContiguousSnoc(es, c.tx.nxt, d.tx.nxt, e);
    assert d'.sent[|c.sent|..] == es + [e];
  }

  lemma NoneSent(c: Conn, d: Conn)
    requires c.sent <= d.sent && Contiguous(d.sent[|c.sent|..], c.tx.nxt, d.tx.nxt)
    ensures d.sent == c.sent ==> d.tx.nxt == c.tx.nxt
  {
  }

  lemma TimedMore(c: Conn, now: nat, d: Conn, e: Sent, d': Conn)
    requires c.sent <= d.sent && Timed(c, now, d) && d'.sent == d.sent + [e]
    requires |c.sent| < |d.sent| ==> d.sent[|c.sent|].seg.data != []
    requires if e.seg.data == [] then d'.pace.rtt == d.pace.rtt
      else d'.pace.rtt == TimedUpTo(d.pace.rtt, e.pos + |e.seg.data|, now)
    requires e.pos == d.tx.nxt && (d.sent == c.sent ==> d.tx.nxt == c.tx.nxt)
    ensures Timed(c, now, d')
  {
  }

  lemma ProperWithin(c: Conn, e: Sent)
    requires Proper(c, e) && e.seg.data != []
    ensures e.pos + |e.seg.data| - c.tx.una <= Limit(c.pace)
  {
  }

  /** And so does the FIN. */
  lemma SendsFin(c: Conn, now: nat, d: Conn, d': Conn)
    requires Sending(c.st) && Sends(c, now, d) && 0 <= d.rx.Window() && !c.tx.finSent && !d.tx.finSent
    requires TextFirst(c, d)
    requires d' == SentFin(d, Clocked(d.pace, now)) && 0 < c.pace.rtt.rto
    ensures Sends(c, now, d')
  {
    hide Proper, Timed, Contiguous;
    var e := Build(d, d.tx.nxt, [], false, true, true);
    ContiguousMore(c, d, e, d');
    NoneSent(c, d);
    TimedMore(c, now, d, e, d');
    NoText(c, e);
  }

  lemma NoText(c: Conn, e: Sent)
    requires e.seg.data == [] && Tells(e)
    ensures Proper(c, e)
  {
  }

  /** What has been sent first, if anything, is text. */
  predicate TextFirst(c: Conn, d: Conn) { |c.sent| < |d.sent| ==> d.sent[|c.sent|].seg.data != [] }

  lemma TextFirstRefl(c: Conn)
    ensures TextFirst(c, c)
  {
  }

  lemma TextFirstMore(c: Conn, d: Conn, e: Sent, d': Conn)
    requires TextFirst(c, d) && c.sent <= d.sent && d'.sent == d.sent + [e] && e.seg.data != []
    ensures TextFirst(c, d')
  {
  }

  /** What the send engine leaves alone. */
  lemma SendsSame(c: Conn, now: nat, d: Conn)
    requires Sends(c, now, d)
    ensures c.sent <= d.sent && d.tx.una == c.tx.una && d.pace.flow == c.pace.flow && Limit(d.pace) == Limit(c.pace)
    ensures d.pace.rtt.rto == c.pace.rtt.rto
  {
    hide Proper, Contiguous;
  }

  lemma TimeoutPositive(c: Conn)
    requires Core(c) && c.st != Closed
    ensures 0 < c.pace.rtt.rto
  {
    hide LogInv, OwedInv, KarnInv;
  }

  /** The chunk that `tcp_output` chooses and does not hold back is proper. */
  lemma ChunkProper(c: Conn, e: Sent, avail: nat, room: nat)
    requires c.tx.una <= e.pos && room == Limit(c.pace) - (e.pos - c.tx.una)
    requires |e.seg.data| == Min(Min(avail, c.pace.flow.mss), room)
    requires !(!c.pace.flow.nodelay && e.pos > c.tx.una && |e.seg.data| < c.pace.flow.mss && |e.seg.data| == avail)
    requires Tells(e)
    ensures Proper(c, e)
  {
  }

  /** Exhausted with nothing in flight means for want of data or of window. */
  lemma ExhaustedIdle(c: Conn)
    requires Core(c) && Sending(c.st) && Exhausted(c) && c.tx.una == c.tx.nxt
    ensures if c.tx.Unacked() == [] then !c.tx.closed else Limit(c.pace) == 0
  {
    hide LogInv, OwedInv, KarnInv, ReceiveInv;
  }

  /** When the send engine stops with nothing in flight, nothing is left that only it could send. */
  lemma OutputNeverStalls(c: Conn)
    requires Core(c)
    requires Sending(c.st) && c.tx.una == c.tx.nxt ==>
      if c.tx.Unacked() == [] then !c.tx.closed else Limit(c.pace) == 0
    ensures Inv(c)
  {
    hide LogInv, OwedInv, KarnInv, ReceiveInv;
  }

  // ---------------------------------------------------------------- retransmission and the clock

  /** The segment `tcp_retransmit` sends: the SYN, the oldest unacknowledged text, or the FIN. */
  function Resend(c: Conn): Sent
    requires 0 <= c.rx.Window() && SendInv(c.tx)
  {
    if c.tx.una == 0 then Build(c, 0, [], true, c.synced, false)
    else if TextInFlight(c.tx) > 0 then
      Build(c, c.tx.una, c.tx.Unacked()[..Min(TextInFlight(c.tx), c.pace.flow.mss)], false, true, false)
    else Build(c, c.tx.una, [], false, true, true)
  }

  /** The connection afterwards: nothing is timed any longer. */
  function Resent(c: Conn): Conn
    requires 0 <= c.rx.Window() && SendInv(c.tx)
  {
    c.(sent := c.sent + [Resend(c)],
       pace := (if c.synced then Paid(c) else c.pace).(rtt := c.pace.rtt.(timing := false)))
  }

  lemma ResendFaithful(c: Conn)
    requires SendInv(c.tx) && 0 <= c.rx.Window() && c.tx.una < c.tx.nxt && 1 <= c.pace.flow.mss
    requires c.tx.una >= 1 ==> c.synced
    ensures Faithful(c, Resend(c)) && Retransmits(c, Resend(c)) && Resend(c).seg.acks == c.synced
  {
    hide Wrap;
    if c.tx.una >= 1 && TextInFlight(c.tx) > 0 {
      var n := Min(TextInFlight(c.tx), c.pace.flow.mss);
      assert Resend(c).seg.data == c.tx.written[c.tx.una - 1..c.tx.una - 1 + n];
    }
  }

  /** The segment as it is built from the ring: the SYN if that is oldest, `n` bytes, or the FIN if there is no text. */
  lemma ResendBuilt(c: Conn, d: Conn, n: nat, e: Sent)
    requires SendInv(c.tx) && 0 <= c.rx.Window() && d == c.(pace := d.pace) && c.tx.una < c.tx.nxt
    requires c.tx.una >= 1 ==> c.synced
    requires n == if c.tx.una == 0 then 0 else Min(TextInFlight(c.tx), c.pace.flow.mss)
    requires n <= |c.tx.Unacked()| && 1 <= c.pace.flow.mss
    requires e == Build(d, c.tx.una, c.tx.Unacked()[0..n], c.tx.una == 0, c.synced, c.tx.una > 0 && n == 0)
    ensures e == Resend(c)
  {
  }

  lemma ResendTells(c: Conn)
    requires SendInv(c.tx) && 0 <= c.rx.Window()
    ensures Resend(c).ackPos == c.rx.RcvNxt() && Resend(c).seg.wnd == c.rx.Window() && !Resend(c).seg.rst
    ensures c.synced ==> Tells(Resend(c))
  {
  }

  lemma ResendKeepsCore(c: Conn)
    requires Core(c) && c.st != Closed && c.tx.una < c.tx.nxt
    ensures Core(Resent(c)) && Extends(c, Resent(c)) && Retransmits(c, Resend(c))
  {
    hide Wrap, Resend, OwedInv, KarnInv, Retransmits;
    var c' := Resent(c);
    ResendFaithful(c);
    ResendTells(c);
    LogGrows(c, c');
    KarnGrows(c, c');
    if c.synced {
      JustTold(c');
    } else {
      NotSynced(c, c');
    }
  }

  /** Before the peer is known there is nothing to tell. */
  lemma NotSynced(c: Conn, c': Conn)
    requires OwedInv(c) && !c.synced && !c'.synced && c'.pace.owed == c.pace.owed
    ensures OwedInv(c')
  {
  }

  /** Only the pacing of a connection changed, and nothing it owes. */
  lemma PaceKeepsCore(c: Conn, pace: Pace)
    requires Core(c) && FlowInv(pace.flow) && (c.synced ==> pace.flow.mss == c.pace.flow.mss)
    requires c.st != Closed ==> TimerInv(c.tx, pace) && pace.owed == c.pace.owed
    requires pace.rtt.timing ==> c.pace.rtt.timing && pace.rtt.upTo == c.pace.rtt.upTo
    requires c.pace.fires <= pace.fires
    ensures Core(c.(pace := pace)) && Extends(c, c.(pace := pace))
  {
    hide OwedInv, KarnInv, RttInv;
    LogGrows(c, c.(pace := pace));
    if c.st != Closed {
      QuietKeeps(c, c.(pace := pace));
    }
  }

  lemma CoreIsSound(c: Conn)
    requires Core(c)
    ensures Sound(c)
  {
  }

  lemma FreedKeepsInv(c: Conn, pace: Pace)
    requires Sound(c) && c.pace.fires <= pace.fires && pace.flow == c.pace.flow
    ensures Inv(c.(st := Closed, pace := pace)) && Extends(c, c.(st := Closed, pace := pace))
  {
    LogGrows(c, c.(st := Closed, pace := pace));
  }

  /** A RST says nothing the log could be wrong about. */
  lemma ResetKeepsSound(c: Conn, e: Sent, pace: Pace)
    requires Sound(c) && e.seg.rst && e.seg.data == [] && pace == c.pace.(owed := pace.owed)
    ensures Sound(c.(sent := c.sent + [e], pace := pace)) && Extends(c, c.(sent := c.sent + [e], pace := pace))
  {
    LogGrows(c, c.(sent := c.sent + [e], pace := pace));
  }

  lemma ResetKeepsInv(c: Conn, e: Sent)
    requires Inv(c) && e.seg.rst && e.seg.data == []
    ensures Inv(c.(sent := c.sent + [e])) && Extends(c, c.(sent := c.sent + [e]))
  {
    hide OwedInv, KarnInv;
    var c' := c.(sent := c.sent + [e]);
    ResetKeepsSound(c, e, c.pace);
    if c.st != Closed {
      StillTold(c, c');
      KarnGrows(c, c');
    }
  }

  lemma TimerMeansNoStall(c: Conn)
    requires Core(c) && (c.pace.rtoAt != 0 || !Sending(c.st))
    ensures Inv(c)
  {
  }

  /** A bare acknowledgment keeps the invariant, and a stall is not its doing. */
  lemma AckedKeepsInv(c: Conn)
    requires Inv(c) && c.synced
    ensures Inv(Acked(c)) && Extends(c, Acked(c))
  {
    hide Core, Extends;
    InvIsCore(c);
    AckedKeepsCore(c);
  }

  /** The eleventh expiry. */
  lemma GiveUpTicks(c: Conn, now: nat, d: Conn, c': Conn)
    requires Core(c) && c.st != TimeWait && c.st != Closed && Overdue(c, now) && c.pace.rtx == MAX_RTX
    requires d == c.(pace := d.pace) && d.pace.fires == c.pace.fires + 1 && Reset(Freed(d), c')
    ensures 0 <= c.rx.Window() && TickSpec(c, now, c')
  {
    hide LogInv, OwedInv, KarnInv;
  }

  /** An earlier one. */
  lemma RetryTicks(c: Conn, now: nat, c': Conn)
    requires Core(c) && c.st != TimeWait && c.st != Closed && Overdue(c, now) && c.pace.rtx < MAX_RTX
    requires c' == c.(pace := BackedOff(c, now), sent := c.sent + [Resend(c)]) && Retransmits(c, Resend(c))
    ensures 0 <= c.rx.Window() && TickSpec(c, now, c')
  {
    hide LogInv, OwedInv, KarnInv, Resend, Retransmits, BackedOff;
    BackedOffCounts(c, now);
  }

  lemma BackedOffCounts(c: Conn, now: nat)
    requires FlowInv(c.pace.flow)
    ensures BackedOff(c, now).fires == c.pace.fires + 1
  {
  }

  /** The pace after the timer has expired and the window has collapsed, before the retransmission. */
  lemma BackoffKeepsCore(c: Conn, now: nat, pace: Pace)
    requires Core(c) && c.st != Closed && c.tx.una < c.tx.nxt && c.pace.rtx < MAX_RTX
    requires var b := BackedOff(c, now);
      pace == b.(owed := c.pace.owed, rtt := b.rtt.(timing := c.pace.rtt.timing))
    ensures Core(c.(pace := pace)) && Extends(c, c.(pace := pace))
    ensures 0 <= c.rx.Window() && Resend(c.(pace := pace)) == Resend(c)
    ensures Resent(c.(pace := pace)) == c.(pace := BackedOff(c, now), sent := c.sent + [Resend(c)])
  {
    hide LogInv, OwedInv, KarnInv, Core, Extends;
    BackedOffInv(c, now);
    PaceKeepsCore(c, pace);
    CoreReceives(c);
  }

  lemma BackedOffInv(c: Conn, now: nat)
    requires Core(c) && c.st != Closed && c.tx.una < c.tx.nxt && c.pace.rtx < MAX_RTX
    ensures SendInv(c.tx) && TimerInv(c.tx, BackedOff(c, now)) && FlowInv(BackedOff(c, now).flow)
    ensures RttInv(c.tx, BackedOff(c, now).rtt.(timing := c.pace.rtt.timing))
  {
    hide LogInv, OwedInv, KarnInv;
    WrapSmall(Halved(c.tx.nxt - c.tx.una, c.pace.flow.mss));
  }

  lemma ProbeTicks(c: Conn, now: nat)
    requires Inv(c) && ProbeDue(c)
    ensures TickSpec(c, now, SentText(c, NextText(c, 1), now + c.pace.rtt.rto, c.pace.rtt))
  {
    hide LogInv, OwedInv, KarnInv, ReceiveInv, Wrap, Stalled;
    var t := c.tx;
    assert t.Unacked()[t.nxt - t.una..t.nxt - t.una + 1] == t.Unacked()[..1];
  }

  lemma IdleTicks(c: Conn, now: nat)
    requires Core(c) && c.st != TimeWait && c.st != Closed && !Overdue(c, now) && !ProbeDue(c)
    ensures 0 <= c.rx.Window() && TickSpec(c, now, if AckDue(c, now) then Acked(c) else c)
  {
    hide LogInv, OwedInv, KarnInv;
  }

  // ---------------------------------------------------------------- the application

  lemma NagleKeepsInv(c: Conn, nodelay: bool)
    requires Inv(c)
    ensures Inv(NagleSet(c, nodelay)) && Extends(c, NagleSet(c, nodelay))
  {
    hide OwedInv, KarnInv, LogInv;
    PaceKeepsCore(c, NagleSet(c, nodelay).pace);
  }

  lemma WriteKeepsCore(c: Conn, data: seq<byte>)
    requires Core(c) && (c.st == Established || c.st == CloseWait) && |c.tx.Unacked()| + |data| <= RING
    ensures var c' := c.(tx := c.tx.(written := c.tx.written + data)); Core(c') && Extends(c, c')
  {
    hide OwedInv, KarnInv;
    var c' := c.(tx := c.tx.(written := c.tx.written + data));
    LogGrows(c, c');
    QuietKeeps(c, c');
  }

  /** Reading makes room; a peer that was told 0 is told again when there is room for a segment. */
  lemma ReadKeepsInv(c: Conn, n: nat)
    requires Inv(c) && c.synced && n <= |c.rx.Unread()|
    requires Handshaking(c.st) ==> n == 0
    ensures var d := c.(rx := c.rx.(read := c.rx.read + n));
      && 0 <= d.rx.Window()
      && var c' := if Reopens(d) then Acked(d) else d; Inv(c') && Extends(c, c')
  {
    hide KarnInv, OwedInv, LogInv;
    var d := c.(rx := c.rx.(read := c.rx.read + n));
    ReadExtends(c, n);
    if Reopens(d) {
      JustTold(Acked(d));
      if c.st != Closed {
        KarnGrows(c, Acked(d));
      }
    } else if c.st != Closed {
      RoomStillTold(c, d);
      KarnSame(c, d);
    }
  }

  lemma ReadExtends(c: Conn, n: nat)
    requires Inv(c) && c.synced && n <= |c.rx.Unread()| && (Handshaking(c.st) ==> n == 0)
    ensures var d := c.(rx := c.rx.(read := c.rx.read + n));
      0 <= d.rx.Window() && Extends(c, d) && LogInv(d) && Extends(c, Acked(d)) && LogInv(Acked(d))
  {
    hide KarnInv, OwedInv;
    var d := c.(rx := c.rx.(read := c.rx.read + n));
    LogGrows(c, d);
    LogGrows(c, Acked(d));
  }

  lemma RoomStillTold(c: Conn, d: Conn)
    requires OwedInv(c) && c.synced && !Reopens(d) && d == c.(rx := c.rx.(read := d.rx.read))
    ensures OwedInv(d)
  {
    var i :| 0 <= i < |c.sent| && Said(c, i);
    assert Said(d, i);
  }

  lemma KarnSame(c: Conn, c': Conn)
    requires KarnInv(c) && c'.sent == c.sent && c'.pace.rtt == c.pace.rtt
    ensures KarnInv(c')
  {
  }

  lemma CloseKeepsCore(c: Conn)
    requires Core(c) && (c.st == Established || c.st == CloseWait)
    ensures var c' := c.(tx := c.tx.(closed := true, closedFirst := !c.rx.eof),
                         st := if c.rx.eof then LastAck else FinWait1);
      Core(c') && Extends(c, c')
  {
    hide OwedInv, KarnInv;
    var c' := c.(tx := c.tx.(closed := true, closedFirst := !c.rx.eof), st := if c.rx.eof then LastAck else FinWait1);
    LogGrows(c, c');
    QuietKeeps(c, c');
  }

  // ---------------------------------------------------------------- segment arrives

  /** The handshake completes when the peer's SYN is already known. */
  lemma EstablishedKeepsInv(c: Conn, pace: Pace)
    requires Core(c) && c.st == SynRcvd && FlowInv(pace.flow) && pace.flow.mss == c.pace.flow.mss
    requires pace.rtoAt == 0 && pace.rtx == 0 && pace.fires == c.pace.fires
    requires pace.rtt == c.pace.rtt && pace.owed == c.pace.owed
    ensures var c' := c.(st := Established, tx := c.tx.(una := 1), pace := pace); Inv(c') && Extends(c, c')
  {
    hide OwedInv, KarnInv;
    var c' := c.(st := Established, tx := c.tx.(una := 1), pace := pace);
    LogGrows(c, c');
    QuietKeeps(c, c');
  }

  /** The handshake completes with the peer's SYN; it is acknowledged at once. */
  lemma JoinedKeepsInv(c: Conn, irs: Word32, pace: Pace)
    requires Core(c) && c.st == SynSent && FlowInv(pace.flow)
    requires pace.rtoAt == 0 && pace.rtx == 0 && pace.fires == c.pace.fires && pace.rtt == c.pace.rtt
    ensures var d := c.(st := Established, irs := irs, synced := true, tx := c.tx.(una := 1), pace := pace);
      0 <= d.rx.Window() && Inv(Acked(d)) && Extends(c, Acked(d))
  {
    hide OwedInv, KarnInv;
    var c' := Acked(c.(st := Established, irs := irs, synced := true, tx := c.tx.(una := 1), pace := pace));
    LogGrows(c, c');
    JustTold(c');
    KarnGrows(c, c');
  }

  /** Simultaneous open: the peer's SYN arrives before ours is acknowledged. */
  lemma SimultaneousKeepsInv(c: Conn, irs: Word32, flow: Flow)
    requires Core(c) && c.st == SynSent && FlowInv(flow)
    ensures var d := c.(st := SynRcvd, irs := irs, synced := true, pace := c.pace.(flow := flow));
      && 0 <= d.rx.Window()
      && var c' := d.(sent := d.sent + [Build(d, 0, [], true, true, false)], pace := Paid(d));
         Inv(c') && Extends(c, c')
  {
    hide OwedInv, KarnInv;
    var d := c.(st := SynRcvd, irs := irs, synced := true, pace := c.pace.(flow := flow));
    var c' := d.(sent := d.sent + [Build(d, 0, [], true, true, false)], pace := Paid(d));
    LogGrows(c, c');
    JustTold(c');
    KarnGrows(c, c');
  }

  /** A new acknowledgment moves the window and, when it covers our FIN, the state. */
  lemma AckKeepsCore(c: Conn, a: nat, pace: Pace)
    requires Core(c) && c.st != Closed && !Handshaking(c.st) && c.tx.una < a <= c.tx.nxt
    requires var t := c.tx.(una := a); TimerInv(t, pace) && (c.st == LastAck ==> !t.FinAcked())
    requires pace.fires == c.pace.fires && pace.flow.mss == c.pace.flow.mss
    requires pace.owed == c.pace.owed || (c.rx.eof && pace.owed == c.pace.owed.(due := 0))
    requires pace.rtt.timing ==> c.pace.rtt.timing && pace.rtt.upTo == c.pace.rtt.upTo
    ensures var t := c.tx.(una := a);
      var c' := c.(tx := t, st := StateOf(t, c.rx.eof), pace := pace);
      Core(c') && Extends(c, c')
  {
    hide KarnInv, OwedInv;
    var t := c.tx.(una := a);
    var c' := c.(tx := t, st := StateOf(t, c.rx.eof), pace := pace);
    LogGrows(c, c');
    QuietKeeps(c, c'.(pace := pace.(owed := c.pace.owed)));
    FinToldKeeps(c'.(pace := pace.(owed := c.pace.owed)), c');
  }

  /** The timer after progress up to `a`. */
  lemma ProgressTimer(t: Tx, a: nat, p: Pace, p': Pace)
    requires RttInv(t, p.rtt) && 1 <= t.una < a <= t.nxt && FlowInv(p'.flow) && p'.rtx == 0
    requires RTO_MIN <= p'.rtt.rto <= RTO_MAX && (p'.rtt.srtt >= 0 ==> p'.rtt.rttvar >= 0)
    requires p'.rtt.timing ==> p.rtt.timing && a < p.rtt.upTo == p'.rtt.upTo
    requires p'.rtoAt == if a == t.nxt then 0 else p'.rtoAt
    requires a != t.nxt ==> p'.rtoAt != 0
    ensures TimerInv(t.(una := a), p')
  {
  }

  /** The text being timed compares as its position does. */
  lemma TimedCompares(iss: Word32, t: Tx, m: Rtt, a: nat)
    requires SendInv(t) && RttInv(t, m) && t.una < a <= t.nxt
    ensures m.timing ==> (SeqGe(Wrap(iss + a), Wrap(iss + m.upTo)) <==> a >= m.upTo)
  {
    if m.timing {
      Compare(iss, a, m.upTo);
    }
  }

  lemma SndCompares(iss: Word32, t: Tx)
    requires SendInv(t)
    ensures Wrap(iss + t.una) == Wrap(iss + t.nxt) <==> t.una == t.nxt
  {
    Compare(iss, t.una, t.nxt);
  }

  lemma FlowPositive(c: Conn)
    requires Core(c)
    ensures 1 <= c.pace.flow.mss
  {
  }

  /** Credited, and the state moved as the acknowledgment of our FIN demands. */
  lemma MovedIsCredited(c: Conn, seg: Segment, now: nat, d: Conn, c': Conn)
    requires Core(c) && c.st != Closed && !Handshaking(c.st) && c.tx.una < AckPos(c, seg) <= c.tx.nxt
    requires d == c.(tx := TxAcked(c, seg), pace := d.pace) && TimerInv(d.tx, d.pace)
    requires d.pace.fires == c.pace.fires && d.pace.waitUntil == c.pace.waitUntil && d.pace.owed == c.pace.owed
    requires d.pace.rtx == 0 && d.pace.rtoAt == if d.tx.una == d.tx.nxt then 0 else now + d.pace.rtt.rto
    requires if !Measures(c, seg) then d.pace.rtt == c.pace.rtt
      else Sampled(c.pace.rtt, Wrap(now - c.pace.rtt.since), d.pace.rtt) && !d.pace.rtt.timing
    requires c' == d.(st := c'.st, pace := c'.pace)
    requires if d.tx.FinAcked() && c.st == Closing
      then c'.st == TimeWait && c'.pace ==
        d.pace.(rtoAt := 0, owed := d.pace.owed.(due := 0), waitUntil := now + 2 * MSL)
      else c'.pace == d.pace && c'.st == if !d.tx.FinAcked() then c.st else if c.st == FinWait1 then FinWait2
        else if c.st == LastAck then Closed else c.st
    ensures Credited(c, seg, now, c') && TimerInv(c'.tx, c'.pace)
  {
    hide LogInv, OwedInv, KarnInv, Sampled, Unwrap, ReceiveInv;
  }

  /** A credited acknowledgment keeps the invariant. */
  lemma CreditedKeepsCore(c: Conn, seg: Segment, now: nat, c': Conn)
    requires Core(c) && c.st != Closed && !Handshaking(c.st) && c.tx.una < AckPos(c, seg) <= c.tx.nxt
    requires Credited(c, seg, now, c') && TimerInv(c'.tx, c'.pace) && c'.pace.flow.mss == c.pace.flow.mss
    ensures Core(c') && Extends(c, c')
  {
    hide Core, Extends, Unwrap, Sampled, TimerInv, StateOf;
    var a := AckPos(c, seg);
    CreditedOwes(c, seg, now, c');
    TimerFlow(c'.tx, c'.pace);
    AckedState(c, a);
    if c'.st == Closed {
      LastAckKeepsInv(c, a, c'.pace);
      InvIsCore(c');
    } else {
      LastAckOpen(c, a);
      AckKeepsCore(c, a, c'.pace);
    }
  }

  lemma TimerFlow(t: Tx, p: Pace)
    requires TimerInv(t, p)
    ensures FlowInv(p.flow)
  {
  }

  lemma LastAckOpen(c: Conn, a: nat)
    ensures StateOf(c.tx.(una := a), c.rx.eof) != Closed
  {
  }

  /** In TIME-WAIT both FINs are acknowledged. */
  lemma CreditedOwes(c: Conn, seg: Segment, now: nat, c': Conn)
    requires Credited(c, seg, now, c')
    ensures c'.st == TimeWait ==> c.rx.eof
  {
    hide Unwrap, Sampled;
  }

  /** Once the peer's FIN is acknowledged, nothing is owed. */
  lemma FinToldKeeps(c: Conn, c': Conn)
    requires OwedInv(c) && KarnInv(c) && c' == c.(pace := c'.pace) && c'.pace == c.pace.(owed := c'.pace.owed)
    requires c'.pace.owed == c.pace.owed || (c.rx.eof && c'.pace.owed == c.pace.owed.(due := 0))
    ensures OwedInv(c') && KarnInv(c')
  {
    if c.synced {
      var i :| 0 <= i < |c.sent| && Said(c, i);
      assert Said(c', i);
    }
  }

  /** The acknowledgment of the last FIN ends a connection that was closed by the peer first. */
  lemma LastAckKeepsInv(c: Conn, a: nat, pace: Pace)
    requires Core(c) && 1 <= c.tx.una < a <= c.tx.nxt && pace.fires == c.pace.fires && FlowInv(pace.flow)
    requires pace.flow.mss == c.pace.flow.mss
    ensures var c' := c.(tx := c.tx.(una := a), st := Closed, pace := pace); Inv(c') && Extends(c, c')
  {
    hide OwedInv, KarnInv;
    LogGrows(c, c.(tx := c.tx.(una := a), st := Closed, pace := pace));
  }

  /** A window update that does not reopen a closed window needs no further step. */
  lemma WindowKeepsInv(c: Conn, wnd: nat, flow: Flow)
    requires Inv(c) && (c.pace.sndWnd == 0 ==> wnd == 0) && FlowInv(flow) && flow.mss == c.pace.flow.mss
    ensures Inv(c.(pace := c.pace.(sndWnd := wnd, flow := flow)))
  {
    hide OwedInv, KarnInv, LogInv;
    WindowKeepsCore(c, wnd, flow);
  }

  lemma WindowKeepsCore(c: Conn, wnd: nat, flow: Flow)
    requires Inv(c) && FlowInv(flow) && flow.mss == c.pace.flow.mss
    ensures var c' := c.(pace := c.pace.(sndWnd := wnd, flow := flow)); Core(c') && Extends(c, c')
  {
    hide OwedInv, KarnInv;
    PaceKeepsCore(c, c.pace.(sndWnd := wnd, flow := flow));
  }

  lemma NotSending(c: Conn)
    requires Core(c)
    ensures !Sending(c.st) ==> Inv(c)
  {
  }

  /** Where an acknowledgment up to `a` leads the state. */
  lemma AckedState(c: Conn, a: nat)
    requires Core(c) && c.st != Closed && !Handshaking(c.st) && c.tx.una < a <= c.tx.nxt
    ensures !c.tx.FinAcked() && c.st == StateOf(c.tx, c.rx.eof) && 1 <= c.tx.una
    ensures var t := c.tx.(una := a);
      && (t.FinAcked() ==> c.st == FinWait1 || c.st == Closing || c.st == LastAck)
      && (t.FinAcked() ==> c.tx.closed)
      && (!t.FinAcked() ==> StateOf(t, c.rx.eof) == c.st)
  {
  }

  /** Text is received; if it moved RCV.NXT, an acknowledgment is now owed. */
  lemma TextKeepsInv(c: Conn, pos: int, data: seq<byte>, owed: Owed)
    requires Inv(c) && Receiving(c.st) && owed.told == c.pace.owed.told
    requires
      || (owed == c.pace.owed && Receive(c.rx, pos, data).RcvNxt() == c.rx.RcvNxt())
      || (owed.due != 0 && owed.count >= 1)
    ensures var c' := c.(rx := Receive(c.rx, pos, data), pace := c.pace.(owed := owed)); Inv(c') && Extends(c, c')
  {
    hide KarnInv, Receive;
    var c' := c.(rx := Receive(c.rx, pos, data), pace := c.pace.(owed := owed));
    ReceiveKeepsInv(c.rx, pos, data);
    LogGrows(c, c');
    KarnSame(c, c');
    var i :| 0 <= i < |c.sent| && Said(c, i);
    assert Said(c', i);
  }

  /** The peer's FIN is consumed and acknowledged. */
  lemma FinKeepsInv(c: Conn, waitUntil: nat)
    requires Inv(c) && Receiving(c.st)
    ensures var d := c.(rx := c.rx.(eof := true), st := StateOf(c.tx, true), pace := c.pace.(waitUntil := waitUntil));
      0 <= d.rx.Window() && Inv(Acked(d)) && Extends(c, Acked(d))
  {
    hide KarnInv, OwedInv;
    var d := c.(rx := c.rx.(eof := true), st := StateOf(c.tx, true), pace := c.pace.(waitUntil := waitUntil));
    LogGrows(c, Acked(d));
    JustTold(Acked(d));
    KarnGrows(c, Acked(d));
  }

  /** Only sending moved on, and with it the timers; the windows may have changed before. */
  predicate Pushed(c: Conn, now: nat, c': Conn) {
    && c' == c.(tx := c.tx.(nxt := c'.tx.nxt, finSent := c'.tx.finSent), pace := c'.pace, sent := c'.sent)
    && c.sent <= c'.sent && c.tx.nxt <= c'.tx.nxt
    && c'.pace.rtx == c.pace.rtx && c'.pace.fires == c.pace.fires && c'.pace.waitUntil == c.pace.waitUntil
    && Within(c.tx, c'.tx, c'.pace.cwnd) && (!Sending(c.st) ==> c'.tx == c.tx)
    && Started(c.pace, c'.tx.nxt != c.tx.nxt, now, c'.pace.rtoAt) && SameRtt(c.pace.rtt, c.tx.nxt, now, c'.pace.rtt)
    && (if c'.sent == c.sent then c'.pace.owed == c.pace.owed else c'.pace.owed == Paid(c).owed && Told(c, c'))
  }

  /** The same measurements; what is being timed goes on, stops, or starts now with text beyond `nxt`. */
  predicate SameRtt(m: Rtt, nxt: nat, now: nat, m': Rtt) {
    && m'.srtt == m.srtt && m'.rttvar == m.rttvar && m'.rto == m.rto
    && (m'.timing ==> (m.timing && m'.upTo == m.upTo && m'.since == m.since) || (nxt < m'.upTo && m'.since == now))
  }

  lemma OutputPushes(c: Conn, now: nat, c': Conn)
    requires OutputSpec(c, now, c')
    ensures Pushed(c, now, c')
  {
    hide Proper, Exhausted, Contiguous;
    if c'.sent != c.sent {
      ProperTells(c, c'.sent[|c.sent|]);
    }
  }

  lemma ProperTells(c: Conn, e: Sent)
    requires Proper(c, e)
    ensures Tells(e)
  {
  }

  /** What the acknowledgment field of a processed segment does to the connection. */
  predicate AckSpec(c: Conn, seg: Segment, now: nat, c': Conn) {
    && c'.rx == c.rx && c'.iss == c.iss && c'.irs == c.irs && c'.synced == c.synced
    && c'.pace.fires == c.pace.fires
    && c'.tx == TxAcked(c, seg).(nxt := c'.tx.nxt, finSent := c'.tx.finSent)
    && Within(TxAcked(c, seg), c'.tx, c'.pace.cwnd)
    && c'.st == (if c.st == LastAck && TxAcked(c, seg).FinAcked() then Closed else StateOf(TxAcked(c, seg), c.rx.eof))
    && (!Sending(c'.st) ==> c'.tx == TxAcked(c, seg))
    && Windowed(c, seg, c') && Rescheduled(c, seg, now, c') && Driven(c, seg, c') && c.sent <= c'.sent
    && StillOwing(c, c') && WaitEntered(c, now, c')
    && (IsThird(c, seg) ==> |c.sent| < |c'.sent| && Retransmits(c, c'.sent[|c.sent|]))
  }

  /** What was owed is still owed, or settled by a segment sent, or dropped with the change to TIME-WAIT. */
  predicate StillOwing(c: Conn, c': Conn) {
    || c'.pace.owed == c.pace.owed
    || (c'.pace.owed == Paid(c).owed && Told(c, c'))
    || (c'.pace.owed.due == 0 && c'.st == TimeWait)
  }

  predicate WaitEntered(c: Conn, now: nat, c': Conn) {
    c'.pace.waitUntil == if c'.st == TimeWait && c.st != TimeWait then now + 2 * MSL else c.pace.waitUntil
  }

  lemma PushedUna(c: Conn, now: nat, c': Conn)
    requires Pushed(c, now, c')
    ensures c'.tx.una == c.tx.una
  {
  }

  lemma PushedRefl(c: Conn, now: nat)
    ensures Pushed(c, now, c)
  {
  }

  lemma PushedTrans(a: Conn, b: Conn, c: Conn, now: nat)
    requires Pushed(a, now, b) && Pushed(b, now, c) && b.pace.cwnd == c.pace.cwnd && 0 < a.pace.rtt.rto
    ensures Pushed(a, now, c)
  {
  }

  /** `c` with the acknowledgment credited and nothing sent yet. */
  predicate Credited(c: Conn, seg: Segment, now: nat, d: Conn) {
    && d == c.(tx := TxAcked(c, seg), pace := d.pace,
               st := if c.st == LastAck && TxAcked(c, seg).FinAcked() then Closed
                     else StateOf(TxAcked(c, seg), c.rx.eof))
    && d.pace.fires == c.pace.fires && WaitEntered(c, now, d)
    && (d.pace.owed == c.pace.owed || (d.pace.owed == c.pace.owed.(due := 0) && d.st == TimeWait))
    && (if Measures(c, seg) then Sampled(c.pace.rtt, Wrap(now - c.pace.rtt.since), d.pace.rtt) && !d.pace.rtt.timing
        else d.pace.rtt == c.pace.rtt)
    && (d.st != Closed ==>
          if Progress(c, seg) then
            d.pace.rtx == 0 && d.pace.rtoAt == if d.tx.una == d.tx.nxt then 0 else now + d.pace.rtt.rto
          else d.pace.rtx == c.pace.rtx && d.pace.rtoAt == c.pace.rtoAt)
  }

  lemma CreditedFreed(c: Conn, seg: Segment, now: nat, d: Conn)
    requires Credited(c, seg, now, d) && d.st == Closed
    ensures Credited(c, seg, now, Freed(d))
  {
    hide Unwrap, Sampled;
  }

  lemma CreditedUna(c: Conn, seg: Segment, now: nat, d: Conn, a: nat)
    requires Credited(c, seg, now, d) && a == AckPos(c, seg) > c.tx.una
    ensures d.tx.una == a
  {
    hide Unwrap, Sampled;
  }

  lemma EarlyDuplicate(cwnd: Word32, dupacks: Word32, inFlight: nat, mss: nat)
    ensures dupacks < 3 ==> DuplicateWindow(cwnd, dupacks, inFlight, mss) == cwnd
  {
  }

  lemma CountedKeepsMss(f: Flow, inFlight: nat)
    ensures CountedDuplicate(f, inFlight).mss == f.mss
  {
  }

  /** The windows changed, and then the send engine ran. */
  lemma WindowThenPush(c: Conn, d: Conn, now: nat, c': Conn)
    requires d == c.(pace := c.pace.(sndWnd := d.pace.sndWnd, flow := d.pace.flow)) && Pushed(d, now, c')
    ensures Pushed(c, now, c')
  {
  }

  /** The acknowledgment has driven the send engine; so has the window, if it reopened. */
  lemma DrivenOnce(c: Conn, seg: Segment, now: nat, d: Conn, e: Conn, c': Conn)
    requires c.st != SynRcvd && c'.st == e.st && e.pace.sndWnd == c.pace.sndWnd && c'.pace.cwnd == e.pace.cwnd
    requires Credited(c, seg, now, d) && Pushed(d, now, e)
    requires c'.pace.flow.mss == e.pace.flow.mss && c'.pace.flow.nodelay == e.pace.flow.nodelay
    requires Sending(e.st) && Drives(c, seg) ==> Drained(e, e.pace.sndWnd)
    requires if Opens(c, seg) then Sending(c'.st) ==> Drained(c', c'.pace.sndWnd) else c'.tx == e.tx
    requires !Drives(c, seg) ==> e.tx == c.tx
    ensures Driven(c, seg, c')
  {
    hide Unwrap, Updates, Progress, IsDuplicate, Sampled, Within, SameRtt, Started;
  }

  lemma PushedLog(c: Conn, now: nat, c': Conn)
    requires Pushed(c, now, c')
    ensures c.sent <= c'.sent
  {
  }

  lemma LiveSends(c: Conn)
    requires Core(c)
    ensures c.tx.una <= c.tx.nxt && (c.tx.finSent ==> c.tx.closed)
  {
    hide LogInv, OwedInv, KarnInv;
  }

  /** Congestion does not touch the last window update. */
  lemma FlowAckedKeeps(c: Conn, seg: Segment)
    ensures Newer(FlowAcked(c, seg), seg) <==> Newer(c.pace.flow, seg)
  {
    hide Unwrap, SeqLt, SeqLe;
  }

  lemma OwingIsSynced(c: Conn)
    requires Core(c) && c.st != Closed && c.pace.owed.due != 0
    ensures c.synced
  {
  }

  lemma OwingCounts(c: Conn)
    requires Core(c) && c.st != Closed
    ensures c.pace.owed.due != 0 ==> c.pace.owed.count >= 1
  {
  }

  lemma StillSynced(c: Conn, c': Conn)
    requires Extends(c, c')
    ensures c.synced ==> c'.synced
  {
  }

  /** The acknowledgment is credited, and then the send engine ran. */
  lemma AckSpecPushed(c: Conn, seg: Segment, now: nat, d: Conn, c': Conn)
    requires c.tx.una <= c.tx.nxt && (c.tx.finSent ==> c.tx.closed) && AckPos(c, seg) <= c.tx.nxt
    requires Credited(c, seg, now, d) && Pushed(d, now, c') && Windowed(c, seg, c') && 0 < d.pace.rtt.rto
    requires Driven(c, seg, c')
    requires IsThird(c, seg) ==> |c.sent| < |c'.sent| && Retransmits(c, c'.sent[|c.sent|])
    ensures AckSpec(c, seg, now, c')
  {
    hide Unwrap, Wrap, Windowed, Retransmits, IsThird, Driven;
  }

  /** Of the positions up to SND.UNA the window test passes SND.UNA itself, and one exactly 2^31 below SND.NXT. */
  lemma AckInWindow(iss: Word32, a: int, t: Tx)
    requires SendInv(t) && (a < t.una ==> t.nxt - HALF <= a) && a <= t.una
    ensures SeqLe(Wrap(iss + t.una), Wrap(iss + a)) && SeqLe(Wrap(iss + a), Wrap(iss + t.nxt)) <==>
      a == t.una || a == t.una - HALF
  {
    hide SeqLe;
    if t.una - a < HALF {
      Compare(iss, t.una, a);
    } else {
      WrapAround(iss + t.una);
      Compare(iss, t.una - MODULUS, a);
    }
    if a == t.una || a == t.una - HALF {
      Compare(iss, a, t.nxt);
    }
  }

  /** The two comparisons that tell a duplicate from any other old acknowledgment. */
  lemma OldAck(iss: Word32, t: Tx, a: int)
    requires SendInv(t) && t.nxt - HALF <= a <= t.una
    ensures Wrap(iss + a) == Wrap(iss + t.una) <==> a == t.una
    ensures SeqLt(Wrap(iss + t.una), Wrap(iss + t.nxt)) <==> t.una < t.nxt
  {
    hide SeqLt;
    Compare(iss, a, t.una);
    Compare(iss, t.una, t.nxt);
  }

  lemma NothingAcked(c: Conn, seg: Segment, now: nat)
    requires Core(c) && c.st != Closed && !Handshaking(c.st) && AckPos(c, seg) <= c.tx.una
    ensures Credited(c, seg, now, c)
  {
    hide LogInv, OwedInv, KarnInv;
  }

  lemma HandshakePos(c: Conn, seg: Segment)
    requires Core(c) && c.st == SynRcvd && 0 < AckPos(c, seg) <= c.tx.nxt
    ensures AckPos(c, seg) == 1 && seg.ackno == Wrap(c.iss + 1) && c.synced
    ensures var t := c.tx.(una := 1); Unwrap(c.iss, t.nxt, seg.ackno) <= t.nxt
  {
    UnwrapWraps(c.iss, c.tx.nxt, seg.ackno);
  }

  /** The connection once our SYN is acknowledged by `seg`. */
  predicate Enters(c: Conn, seg: Segment, d: Conn) {
    && d == c.(st := Established, tx := c.tx.(una := 1), pace := d.pace)
    && d.pace == c.pace.(sndWnd := seg.wnd, cwnd := d.pace.cwnd, rtoAt := 0, rtx := 0,
                         flow := c.pace.flow.(ssthresh := 0xffff_ffff, wl1 := seg.seqno, wl2 := seg.ackno))
    && d.pace.cwnd == StartWindow(c.pace.flow.mss)
  }

  /** With nothing written there is nothing to send. */
  lemma HandshakeDriven(c: Conn, seg: Segment, d: Conn, c': Conn)
    requires Core(c) && c.st == SynRcvd && AckPos(c, seg) == 1 && Enters(c, seg, d) && Driven(d, seg, c')
    requires c'.tx == TxAcked(d, seg).(nxt := c'.tx.nxt, finSent := c'.tx.finSent)
    requires Within(TxAcked(d, seg), c'.tx, c'.pace.cwnd) && Inv(c')
    ensures Driven(c, seg, c')
  {
    hide LogInv, OwedInv, KarnInv, Unwrap;
  }

  /** The acknowledgment that completes the handshake is processed like any other. */
  lemma HandshakeAck(c: Conn, seg: Segment, now: nat, d: Conn, c': Conn)
    requires Core(c) && c.st == SynRcvd && AckPos(c, seg) == 1 && Enters(c, seg, d)
    requires AckSpec(d, seg, now, c') && Inv(c')
    ensures AckSpec(c, seg, now, c')
  {
    hide LogInv, OwedInv, KarnInv, Sampled, Unwrap, Retransmits, Driven;
    assert Newer(d.pace.flow, seg);
    HandshakeDriven(c, seg, d, c');
  }

  lemma JoinedEnters(c: Conn, seg: Segment, d: Conn, e: Conn)
    requires d == Joined(c, seg) && Enters(d, seg, e)
    ensures e == JoinedAcked(c, seg)
  {
  }

  /** In-window text lies close enough to the next expected byte for its sequence numbers to compare. */
  lemma TextNear(c: Conn, seg: Segment)
    requires Acceptable(c, seg) && 0 <= c.rx.Window() <= RING && |seg.data| + 2 <= RING
    ensures c.rx.RcvNxt() - RING <= SegPos(c, seg) <= c.rx.RcvNxt() + RING
    ensures seg.seqno == Wrap(c.irs + SegPos(c, seg))
  {
    UnwrapWraps(c.irs, c.rx.RcvNxt(), seg.seqno);
  }

  /** Whether text and FIN are taken shows in the state the acknowledgment has left. */
  lemma TextThenFin(c: Conn, seg: Segment, now: nat, d: Conn, rx: Rx)
    requires AckSpec(c, seg, now, d) && d.st != Closed
    requires ReceiveInv(c.rx) && Acceptable(c, seg) && |seg.data| + 2 <= RING
    requires rx == if Receiving(d.st) && seg.data != [] then Receive(d.rx, SegPos(c, seg), seg.data) else d.rx
    ensures rx == RxText(c, seg)
    ensures RxAfter(c, seg) == if FinHere(seg, d, rx) && Receiving(d.st) then rx.(eof := true) else rx
    ensures FinTaken(c, seg) <==> FinHere(seg, d, rx) && Receiving(d.st)
    ensures !Takes(c, seg) ==> (FinHere(seg, d, rx) <==> seg.fin && SegPos(c, seg) + |seg.data| == c.rx.RcvNxt())
    ensures Takes(c, seg) <==> Receiving(d.st)
  {
    hide Wrap, Unwrap, Acceptable, Receive, ReceiveInv, Rescheduled, Windowed, Retransmits, IsThird, Within, StillOwing;
    FinCompare(c, seg);
  }

  /** The segment has a FIN at the next expected sequence number. */
  predicate FinHere(seg: Segment, d: Conn, rx: Rx) {
    seg.fin && Wrap(seg.seqno + |seg.data|) == Wrap(d.irs + rx.RcvNxt())
  }

  /** The three phases of a processed segment make up its specification. */
  lemma PhasesProcess(c: Conn, seg: Segment, now: nat, backlogFull: bool, d: Conn, c': Conn)
    requires c.st != Closed && AckSpec(c, seg, now, d) && d.st != Closed && !(c.st == SynRcvd && backlogFull)
    requires c'.rx == RxAfter(c, seg) && c'.st != Closed && d.sent <= c'.sent
    requires c' == d.(rx := c'.rx, st := c'.st, pace := c'.pace, sent := c'.sent)
    requires c'.pace == d.pace.(owed := c'.pace.owed, waitUntil := c'.pace.waitUntil)
    requires Owing(c, seg, now, c') && WaitSet(c, seg, now, c')
    ensures ProcessedSpec(c, seg, now, backlogFull, c')
  {
    hide Wrap, Unwrap, RxAfter, Sampled, CwndAfter, WndAfter, FlowAfter, Retransmits, IsThird, Owing, WaitSet, Within;
    hide IsDuplicate, Progress;
  }

  lemma AckKeepsSync(c: Conn, seg: Segment, now: nat, d: Conn)
    requires AckSpec(c, seg, now, d)
    ensures d.synced == c.synced && d.irs == c.irs && d.rx == c.rx && c.sent <= d.sent
    ensures StillOwing(c, d) && WaitEntered(c, now, d)
  {
  }

  /** A segment whose acknowledgment ended the connection. */
  lemma EndProcesses(c: Conn, seg: Segment, now: nat, backlogFull: bool, c': Conn)
    requires AckSpec(c, seg, now, c') && c'.st == Closed && c.st != Closed
    ensures ProcessedSpec(c, seg, now, backlogFull, c')
  {
    hide Wrap, Unwrap, RxAfter, Sampled, CwndAfter, WndAfter, FlowAfter, Retransmits, IsThird, Within;
  }

  /** Whether the FIN follows what has been received can be read off the sequence numbers. */
  lemma FinCompare(c: Conn, seg: Segment)
    requires ReceiveInv(c.rx) && Acceptable(c, seg) && |seg.data| + 2 <= RING
    ensures Wrap(seg.seqno + |seg.data|) == Wrap(c.irs + RxText(c, seg).RcvNxt()) <==>
      SegPos(c, seg) + |seg.data| == RxText(c, seg).RcvNxt()
  {
    hide Wrap, Unwrap, Acceptable, Receive, Orderly;
    TextNear(c, seg);
    TakesNotEof(c, seg);
    if !c.rx.eof {
      ReceiveKeepsInv(c.rx, SegPos(c, seg), seg.data);
    }
    AddExact(c.irs, SegPos(c, seg), |seg.data|);
    Compare(c.irs, SegPos(c, seg) + |seg.data|, RxText(c, seg).RcvNxt());
  }

  lemma TakesNotEof(c: Conn, seg: Segment)
    ensures Takes(c, seg) ==> !c.rx.eof
  {
  }

  lemma BacklogEnds(c: Conn, seg: Segment, now: nat, d: Conn, c': Conn)
    requires c.st == SynRcvd && AckPos(c, seg) == 1 && c.tx.una == 0 && !c.pace.rtt.timing && Enters(c, seg, d)
    requires Reset(Freed(d), c')
    ensures ProcessedSpec(c, seg, now, true, c')
  {
    hide Wrap, Unwrap, RxAfter, CwndAfter, WndAfter, FlowAfter, Retransmits;
  }

  /** The acceptability test as the source writes it, on 32-bit numbers. */
  function AcceptableWord(seqno: Word32, len: nat, nxt: Word32, wnd: nat): bool {
    if len == 0 then
      if wnd == 0 then seqno == nxt else SeqGe(seqno, nxt) && SeqLt(seqno, Wrap(nxt + wnd))
    else
      wnd > 0 &&
      ((SeqGe(seqno, nxt) && SeqLt(seqno, Wrap(nxt + wnd))) ||
       (SeqGe(Wrap(seqno + len - 1), nxt) && SeqLt(Wrap(seqno + len - 1), Wrap(nxt + wnd))))
  }

  /** It decides exactly the acceptability of section 3.10.7.4 of RFC 9293, for every sequence number. */
  lemma AcceptableExact(c: Conn, seg: Segment)
    requires 0 <= c.rx.Window() <= RING && |seg.data| + 2 <= RING
    ensures AcceptableWord(seg.seqno, seg.SeqLen(), Wrap(c.irs + c.rx.RcvNxt()), c.rx.Window()) <==> Acceptable(c, seg)
    ensures seg.seqno == Wrap(c.irs + c.rx.RcvNxt()) <==> SegPos(c, seg) == c.rx.RcvNxt()
  {
    hide Wrap, SeqGe, SeqLt;
    var n, w, p, len := c.rx.RcvNxt(), c.rx.Window(), SegPos(c, seg), seg.SeqLen();
    UnwrapWraps(c.irs, n, seg.seqno);
    Compare(c.irs, p, n);
    InWindow(c.irs, p, n, w);
    if len > 0 {
      AddExact(c.irs, p, len - 1);
      InWindow(c.irs, p + len - 1, n, w);
    }
  }

  lemma SynSentPos(c: Conn, seg: Segment)
    requires Core(c) && c.st == SynSent
    ensures c.tx == Tx([], 0, 1, false, false, false) && !c.synced && c.rx == Rx([], 0, false, [])
    ensures !(SeqLe(seg.ackno, c.iss) || SeqGt(seg.ackno, Wrap(c.iss + 1))) <==> 0 < AckPos(c, seg) <= c.tx.nxt
    ensures 0 < AckPos(c, seg) <= c.tx.nxt ==> seg.ackno == Wrap(c.iss + 1)
  {
    hide Wrap, SeqLe, SeqGt;
    UnwrapWraps(c.iss, c.tx.nxt, seg.ackno);
    WrapWord(c.iss);
    Compare(c.iss, AckPos(c, seg), 1);
    if AckPos(c, seg) <= 1 {
      Compare(c.iss, AckPos(c, seg), 0);
    }
  }

  /** The comparisons of an acknowledgment number with the send window. */
  lemma AckCompare(c: Conn, seg: Segment)
    requires SendInv(c.tx)
    ensures SeqGt(seg.ackno, Wrap(c.iss + c.tx.nxt)) <==> AckPos(c, seg) > c.tx.nxt
    ensures SeqLe(seg.ackno, Wrap(c.iss + c.tx.nxt)) <==> AckPos(c, seg) <= c.tx.nxt
    ensures c.tx.una == 0 && AckPos(c, seg) <= c.tx.nxt ==>
      (SeqLt(Wrap(c.iss + c.tx.una), seg.ackno) <==> 0 < AckPos(c, seg))
  {
    hide Wrap;
    UnwrapWraps(c.iss, c.tx.nxt, seg.ackno);
    Compare(c.iss, AckPos(c, seg), c.tx.nxt);
    if c.tx.una == 0 && AckPos(c, seg) <= c.tx.nxt {
      Compare(c.iss, c.tx.una, AckPos(c, seg));
    }
  }
}
