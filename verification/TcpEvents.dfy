/** What holds of a TCP connection between events, and what each event may change. */
module TcpEvents {
  import opened SeqSpace
  import opened ByteRings
  import opened TcpSpec

  predicate Handshaking(st: State) { st.SynSent? || st.SynRcvd? }

  /** The states in which `tcp_output` transmits. */
  predicate Sending(st: State) { st.Established? || st.CloseWait? || st.FinWait1? || st.LastAck? }

  /** The states in which segment text and a FIN are taken. */
  predicate Receiving(st: State) { st.Established? || st.FinWait1? || st.FinWait2? }

  /**
   * The state of a synchronized connection is a function of four facts: the application has closed,
   * our FIN is acknowledged, the peer's FIN is consumed, and which side closed first.
   */
  function StateOf(t: Tx, eof: bool): State {
    if !t.closed then (if eof then CloseWait else Established)
    else if t.FinAcked() then (if eof then TimeWait else FinWait2)
    else if !eof then FinWait1
    else if t.closedFirst then Closing
    else LastAck
  }

  // ---------------------------------------------------------------- invariants

  predicate SendInv(t: Tx) {
    && t.una <= t.nxt
    && (t.una == 0 ==> t.nxt == 1 && t.written == [] && !t.closed)
    && (if t.finSent then t.nxt == |t.written| + 2 else t.nxt <= |t.written| + 1)
    && (t.finSent ==> t.closed)
    && |t.written| + 1 - t.una <= RING
  }

  predicate StateInv(c: Conn) {
    && (Handshaking(c.st) <==> c.tx.una == 0)
    && (c.st == SynSent <==> !c.synced)
    && (Handshaking(c.st) ==> c.rx == Rx([], 0, false, []))
    && (!Handshaking(c.st) ==> c.st == StateOf(c.tx, c.rx.eof))
    && (c.tx.closedFirst ==> c.tx.closed)
    && (c.tx.closed && !c.tx.closedFirst ==> c.rx.eof)
    && (c.tx.FinAcked() ==> c.tx.closedFirst)
  }

  /** TCP_OUR_MSS, announced in every SYN, and what is assumed of a peer that announces none. */
  const OUR_MSS: nat := 1460
  const DEFAULT_MSS: nat := 536

  const RTO_MIN: nat := 200
  const RTO_MAX: nat := 60000
  const CLOCK_G: nat := 10
  const MSL: nat := 5000
  const DELACK: nat := 40

  /** `tcp_apply_mss`: the smaller of the peer's MSS and ours, or the default. */
  function EffectiveMss(peer: nat): (r: nat)
    ensures 1 <= r <= OUR_MSS
    ensures if peer == 0 then r == DEFAULT_MSS else r <= peer && (r == peer || r == OUR_MSS)
  {
    if peer != 0 then Min(peer, OUR_MSS) else DEFAULT_MSS
  }

  predicate FlowInv(f: Flow) { 2 <= f.ssthresh && 1 <= f.mss <= OUR_MSS }

  /** The timeout is within its bounds, and what is being timed is in flight. */
  predicate RttInv(t: Tx, m: Rtt) {
    RTO_MIN <= m.rto <= RTO_MAX && (m.srtt >= 0 ==> m.rttvar >= 0) && (m.timing ==> 1 <= t.una < m.upTo <= t.nxt)
  }

  /** The retransmission timer runs exactly while something is unacknowledged. */
  predicate TimerInv(t: Tx, p: Pace) {
    && (p.rtoAt != 0 <==> t.una != t.nxt)
    && p.rtx <= MAX_RTX && p.rtx <= p.fires && FlowInv(p.flow) && RttInv(t, p.rtt)
  }

  /** The zero-window probe of the next tick is due. */
  predicate ProbeDue(c: Conn) {
    Sending(c.st) && c.pace.rtoAt == 0 && c.tx.Unacked() != [] && c.pace.sndWnd == 0 && c.tx.una == c.tx.nxt
  }

  /** Something remains to be delivered, but neither the timer nor a probe will send it. */
  predicate Stalled(c: Conn) {
    Sending(c.st) && (c.tx.Unacked() != [] || c.tx.closed) && c.pace.rtoAt == 0 && !ProbeDue(c)
  }

  /** A transmitted segment carries what the application wrote at its position, and the FIN at the end. */
  predicate TrueText(iss: Word32, t: Tx, e: Sent) {
    && e.seg.seqno == Wrap(iss + e.pos)
    && e.pos + e.seg.SeqLen() <= t.nxt
    && (if e.seg.syn then e.pos == 0 && e.seg.data == [] && !e.seg.fin else 1 <= e.pos && e.seg.acks)
    && (e.seg.data != [] ==> Slice(Parked(e.pos, e.seg.data), t.written))
    && (e.seg.fin ==> t.finSent && e.pos + |e.seg.data| == 1 + |t.written|)
  }

  /** A transmitted segment acknowledges and advertises no more than the receiver stands by. */
  predicate TrueAck(c: Conn, e: Sent) {
    e.seg.acks ==>
      && c.synced && e.seg.ackno == Wrap(c.irs + e.ackPos)
      && 1 <= e.ackPos <= c.rx.RcvNxt() && e.ackPos + e.seg.wnd <= c.rx.RightEdge()
  }

  predicate Faithful(c: Conn, e: Sent) {
    if e.seg.rst then e.seg.data == []
    else TrueText(c.iss, c.tx, e) && TrueAck(c, e) && |e.seg.data| <= c.pace.flow.mss
  }

  predicate LogInv(c: Conn) { forall i :: 0 <= i < |c.sent| ==> Faithful(c, c.sent[i]) }

  /** Segment `e` tells the peer what has been received and the window. */
  predicate Tells(e: Sent) { e.seg.acks && !e.seg.rst }

  /** Segment `i` of a log is the last that does. */
  predicate LastTold(sent: seq<Sent>, i: nat) {
    i < |sent| && Tells(sent[i]) && forall j :: i < j < |sent| ==> !Tells(sent[j])
  }

  /**
   * The last segment to tell the window said `told`. It acknowledged everything received, unless an acknowledgment
   * is due; the peer's FIN never waits.
   */
  predicate Said(c: Conn, i: nat) {
    && LastTold(c.sent, i) && c.sent[i].seg.wnd == c.pace.owed.told
    && (c.pace.owed.due == 0 || c.rx.eof ==> c.sent[i].ackPos == c.rx.RcvNxt())
  }

  /** And a peer that was told 0 is told again as soon as there is room for a segment. */
  predicate OwedInv(c: Conn) {
    && (c.pace.owed.due != 0 ==> c.pace.owed.count >= 1 && c.synced)
    && (c.synced ==> exists i :: 0 <= i < |c.sent| && Said(c, i))
    && (c.synced && c.pace.owed.told == 0 ==> c.rx.Window() < c.pace.flow.mss)
  }

  /** Segment `e` carries the byte at position `pos`. */
  predicate Bears(e: Sent, pos: int) { !e.seg.rst && e.pos <= pos < e.pos + |e.seg.data| }

  /** Karn's rule: the byte whose round trip is being timed has been sent once. */
  predicate KarnInv(c: Conn) {
    c.pace.rtt.timing ==>
      forall i, j :: 0 <= i < j < |c.sent| ==>
        !(Bears(c.sent[i], c.pace.rtt.upTo - 1) && Bears(c.sent[j], c.pace.rtt.upTo - 1))
  }

  /** What holds of a connection even when it is gone. */
  predicate Sound(c: Conn) { SendInv(c.tx) && ReceiveInv(c.rx) && LogInv(c) && FlowInv(c.pace.flow) }

  predicate Core(c: Conn) {
    Sound(c) && (c.st != Closed ==> StateInv(c) && TimerInv(c.tx, c.pace) && OwedInv(c) && KarnInv(c))
  }

  /** The invariant of a connection between events; a stall needs a congestion window that wrapped to 0. */
  predicate Inv(c: Conn) { Core(c) && (Stalled(c) ==> c.pace.cwnd == 0 && c.tx.Unacked() != []) }

  predicate TxExtends(t: Tx, t': Tx) {
    && t.written <= t'.written && t.una <= t'.una && t.nxt <= t'.nxt
    && (t.closed ==> t'.closed && t'.written == t.written)
    && (t.finSent ==> t'.finSent)
  }

  predicate RxExtends(r: Rx, r': Rx) {
    && r.rcvd <= r'.rcvd && r.read <= r'.read && (r.eof ==> r'.eof && r'.rcvd == r.rcvd)
    && r.RcvNxt() <= r'.RcvNxt() && r.RightEdge() <= r'.RightEdge()
  }

  /** Segment `e` acknowledges and advertises all that a receiver `r` had to offer. */
  predicate Offers(r: Rx, e: Sent) {
    e.seg.acks && !e.seg.rst ==> r.RcvNxt() <= e.ackPos && r.RightEdge() <= e.ackPos + e.seg.wnd
  }

  /** What is added to the log offers at least what the receiver had before. */
  predicate LogExtends(c: Conn, c': Conn) {
    c.sent <= c'.sent && forall i :: |c.sent| <= i < |c'.sent| ==> Offers(c.rx, c'.sent[i])
  }

  /** What no event undoes. In particular the window's right edge never moves left. */
  predicate Extends(c: Conn, c': Conn) {
    && c'.iss == c.iss && (c.synced ==> c'.synced && c'.irs == c.irs && c'.pace.flow.mss == c.pace.flow.mss)
    && TxExtends(c.tx, c'.tx) && RxExtends(c.rx, c'.rx) && LogExtends(c, c')
    && c.pace.fires <= c'.pace.fires
    && (c.st == Closed ==> c'.st == Closed)
  }

  lemma SliceOfExtension(p: Parked, s: seq<byte>, s': seq<byte>)
    requires Slice(p, s) && s <= s'
    ensures Slice(p, s')
  {
    assert s'[p.pos - 1..p.End() - 1] == s[p.pos - 1..p.End() - 1];
  }

  /** A faithful segment stays faithful as the connection moves on. */
  lemma FaithfulLater(c: Conn, c': Conn, e: Sent)
    requires (c.tx.finSent ==> c.tx.closed) && Faithful(c, e) && Extends(c, c')
    ensures Faithful(c', e)
  {
    if !e.seg.rst && e.seg.data != [] {
      SliceOfExtension(Parked(e.pos, e.seg.data), c.tx.written, c'.tx.written);
    }
  }

  /** The log stays faithful when the segments added to it are. */
  lemma LogGrows(c: Conn, c': Conn)
    requires (c.tx.finSent ==> c.tx.closed) && LogInv(c) && Extends(c, c')
    requires forall i :: |c.sent| <= i < |c'.sent| ==> Faithful(c', c'.sent[i])
    ensures LogInv(c')
  {
    hide LogExtends, Faithful;
    assert c.sent <= c'.sent by { LogIsPrefix(c, c'); }
    forall i | 0 <= i < |c.sent| ensures Faithful(c', c'.sent[i]) {
      FaithfulLater(c, c', c.sent[i]);
    }
  }

  lemma LogIsPrefix(c: Conn, c': Conn)
    requires LogExtends(c, c')
    ensures c.sent <= c'.sent
  {
  }

  // ---------------------------------------------------------------- segments

  /** The header fields `tcp_send_segment` fills; the acknowledgment field only under ACK. */
  function Wire(seqno: Word32, rcvNxt: Word32, wnd: nat, syn: bool, acks: bool, fin: bool, rst: bool,
                data: seq<byte>): Segment {
    Segment(seqno, if acks then rcvNxt else 0, wnd, syn, acks, fin, rst, if syn then OUR_MSS else 0, data)
  }

  /** The segment of connection `c` at position `pos`. */
  function Build(c: Conn, pos: nat, data: seq<byte>, syn: bool, acks: bool, fin: bool): Sent
    requires 0 <= c.rx.Window()
  {
    Sent(Wire(Wrap(c.iss + pos), Wrap(c.irs + c.rx.RcvNxt()), c.rx.Window(), syn, acks, fin, false, data),
         pos, c.rx.RcvNxt())
  }

  /** Nothing is owed any longer: every segment with an acknowledgment field settles it. */
  function Paid(c: Conn): Pace { c.pace.(owed := Owed(0, 0, Max(c.rx.Window(), 0))) }

  /** The bare acknowledgment of `tcp_send_ctl(TCP_ACK)`. */
  function Acked(c: Conn): Conn
    requires 0 <= c.rx.Window()
  {
    c.(sent := c.sent + [Build(c, c.tx.nxt, [], false, true, false)], pace := Paid(c))
  }

  /** A segment without text leaves Karn's rule alone, and so does text beyond what is being timed. */
  lemma KarnGrows(c: Conn, c': Conn)
    requires KarnInv(c) && |c'.sent| == |c.sent| + 1 && c.sent <= c'.sent
    requires c'.pace.rtt.timing ==>
      c.pace.rtt.timing && c'.pace.rtt.upTo == c.pace.rtt.upTo && !Bears(c'.sent[|c.sent|], c.pace.rtt.upTo - 1)
    ensures KarnInv(c')
  {
  }

  /** A segment that tells settles what is owed. */
  lemma JustTold(c: Conn)
    requires c.sent != [] && Tells(c.sent[|c.sent| - 1]) && c.sent[|c.sent| - 1].ackPos == c.rx.RcvNxt()
    requires c.pace.owed == Owed(0, 0, c.sent[|c.sent| - 1].seg.wnd)
    requires c.sent[|c.sent| - 1].seg.wnd == c.rx.Window() && 1 <= c.pace.flow.mss
    ensures OwedInv(c)
  {
    assert Said(c, |c.sent| - 1);
  }

  /** Segments that do not tell, and what leaves the receiver as it is, change nothing. */
  lemma StillTold(c: Conn, c': Conn)
    requires OwedInv(c) && c.sent <= c'.sent && (forall j :: |c.sent| <= j < |c'.sent| ==> !Tells(c'.sent[j]))
    requires c'.pace.owed == c.pace.owed && c'.pace.flow.mss == c.pace.flow.mss
    requires c'.synced == c.synced && c'.rx == c.rx
    ensures OwedInv(c')
  {
    if c.synced {
      var i :| 0 <= i < |c.sent| && Said(c, i);
      assert c'.sent[i] == c.sent[i];
      assert Said(c', i);
    }
  }

  /** A connection that has just sent its first SYN (or SYN|ACK, when the peer's SYN is known). */
  predicate Opened(c: Conn) {
    && c.st == (if c.synced then SynRcvd else SynSent)
    && c.tx == Tx([], 0, 1, false, false, false) && c.rx == Rx([], 0, false, [])
    && c.pace.rtoAt != 0 && c.pace.rtx == 0 && c.pace.fires == 0 && c.pace.cwnd != 0 && FlowInv(c.pace.flow)
    && !c.pace.rtt.timing && RttInv(c.tx, c.pace.rtt)
    && c.pace.owed == (if c.synced then Paid(c).owed else Owed(0, 0, 0))
    && c.sent == [Build(c, 0, [], true, c.synced, false)]
  }

  lemma OpenedInv(c: Conn)
    requires Opened(c)
    ensures Inv(c)
  {
    if c.synced {
      JustTold(c);
    }
  }

  /** The RST by which an endpoint gives its connection up. */
  predicate IsReset(c: Conn, e: Sent) {
    && e.seg.rst && e.seg.acks && !e.seg.syn && !e.seg.fin && e.seg.data == []
    && e.seg.seqno == Wrap(c.iss + c.tx.nxt) && (c.synced ==> e.seg.ackno == Wrap(c.irs + c.rx.RcvNxt()))
  }

  /** Nothing changed, except that this RST was sent. */
  predicate Reset(c: Conn, c': Conn) {
    && c' == c.(sent := c'.sent, pace := Paid(c)) && c.sent <= c'.sent && |c'.sent| == |c.sent| + 1
    && IsReset(c, c'.sent[|c.sent|])
  }

  /** The RST of `tcp_send_reset_for`, section 3.10.7.1 of RFC 9293. */
  function ResetFor(seg: Segment): Segment {
    if seg.acks then Segment(seg.ackno, 0, 0, false, false, false, true, 0, [])
    else Segment(0, Wrap(seg.seqno + seg.SeqLen()), 0, false, true, false, true, 0, [])
  }

  /** A segment answered by a RST, unless it is one. */
  function Refused(c: Conn, seg: Segment): Conn {
    if seg.rst then c else c.(sent := c.sent + [Sent(ResetFor(seg), 0, 0)])
  }

  /** The connection after `tcb_free`. */
  function Freed(c: Conn): Conn { c.(st := Closed, pace := c.pace.(rtoAt := 0, rtx := 0)) }

  // ---------------------------------------------------------------- the two windows

  /** The bytes of text that an acknowledgment up to `a` covers. */
  function DataAcked(t: Tx, a: int): nat {
    if a < 0 then 0 else Max(|t.Unacked()| - |t.(una := a).Unacked()|, 0)
  }

  /** `tcp_cwnd_init`. */
  function StartWindow(mss: nat): nat { Min(4 * mss, Max(2 * mss, 4380)) }

  /** The congestion window after a new acknowledgment, a 32-bit sum as in the source. */
  function GrownWindow(cwnd: Word32, ssthresh: Word32, dupacks: Word32, dbytes: nat, mss: nat): Word32 {
    if dupacks >= 3 then ssthresh else Wrap(cwnd + Increment(cwnd, ssthresh, dbytes, mss))
  }

  /** What a new acknowledgment adds to it outside fast recovery; a window of 0 is below any threshold. */
  function Increment(cwnd: Word32, ssthresh: Word32, dbytes: nat, mss: nat): nat {
    if cwnd < ssthresh || cwnd == 0 then Min(dbytes, mss) else Max(1, mss * mss / cwnd)
  }

  /** Half of what is in flight, but at least two segments. */
  function Halved(inFlight: nat, mss: nat): nat { Max(inFlight / 2, 2 * mss) }

  /** The congestion window after duplicate acknowledgment number `dupacks`. */
  function DuplicateWindow(cwnd: Word32, dupacks: Word32, inFlight: nat, mss: nat): Word32 {
    if dupacks < 3 then cwnd
    else if dupacks == 3 then Wrap(Halved(inFlight, mss) + 3 * mss)
    else Wrap(cwnd + mss)
  }

  /** `seg` is at least as new as the last window update: by sequence number, then by acknowledgment number. */
  predicate Newer(f: Flow, seg: Segment) {
    SeqLt(f.wl1, seg.seqno) || (f.wl1 == seg.seqno && SeqLe(f.wl2, seg.ackno))
  }

  /** The last of `es` ends at `to`, the first starts at `from`, and there is no gap. */
  predicate Contiguous(es: seq<Sent>, from: nat, to: nat) {
    if es == [] then from == to
    else
      var last := es[|es| - 1];
      Contiguous(es[..|es| - 1], from, last.pos) && to == last.pos + last.seg.SeqLen()
  }

  // ---------------------------------------------------------------- sending

  /** SND.NXT moved only over text that ends at most `limit` past SND.UNA, and over the FIN. */
  predicate Within(t: Tx, t': Tx, limit: int) {
    && (t.finSent ==> t'.finSent)
    && var fin := if t'.finSent && !t.finSent then 1 else 0;
       t'.nxt - fin == t.nxt || t'.nxt - fin - t'.una <= limit
  }

  /** What both windows allow past SND.UNA. */
  function Limit(p: Pace): int { Min(p.sndWnd, p.cwnd) }

  /** Text not yet sent. */
  function Unsent(t: Tx): int { |t.written| + 1 - t.nxt }

  /**
   * A new segment carries an acknowledgment. Its text lies within both windows and is no longer than the peer's
   * MSS. Unless Nagle's algorithm is off, a shorter segment goes out only when nothing is in flight or when it
   * fills the window.
   */
  predicate Proper(c: Conn, e: Sent) {
    && Tells(e)
    && (e.seg.data != [] ==>
          var n := |e.seg.data|;
          && e.pos + n - c.tx.una <= Limit(c.pace) && n <= c.pace.flow.mss
          && (c.pace.flow.nodelay || n == c.pace.flow.mss || e.pos == c.tx.una ||
              e.pos + n - c.tx.una == Limit(c.pace)))
  }

  /** Nagle's algorithm holds the rest back: less than a segment, while something is in flight. */
  predicate Held(c: Conn) {
    && !c.pace.flow.nodelay && c.tx.una < c.tx.nxt && Unsent(c.tx) < c.pace.flow.mss
    && c.tx.nxt - c.tx.una + Unsent(c.tx) <= Limit(c.pace)
  }

  /** Nothing more can be sent: all is out, the windows are full, or Nagle's algorithm holds it back. */
  predicate Exhausted(c: Conn) {
    c.tx.finSent || if Unsent(c.tx) == 0 then !c.tx.closed else c.tx.nxt - c.tx.una >= Limit(c.pace) || Held(c)
  }

  /** The timer runs on from `now` if it was off and something was sent. */
  predicate Started(p: Pace, sent: bool, now: nat, rtoAt: nat) {
    rtoAt == if sent && p.rtoAt == 0 then now + p.rtt.rto else p.rtoAt
  }

  /** The round trip of the first new text is timed, if none is being timed. */
  predicate Timed(c: Conn, now: nat, c': Conn) {
    if !c.pace.rtt.timing && |c.sent| < |c'.sent| && c'.sent[|c.sent|].seg.data != [] then
      var upTo := c.tx.nxt + |c'.sent[|c.sent|].seg.data|;
      c'.pace.rtt == c.pace.rtt.(timing := true, upTo := upTo, since := now)
    else c'.pace.rtt == c.pace.rtt
  }

  /**
   * What `tcp_output` has sent: new segments continue the stream without gap or overlap, each proper, under the
   * timer, and each settles what is owed.
   */
  predicate Sends(c: Conn, now: nat, c': Conn) {
    && c' == c.(tx := c.tx.(nxt := c'.tx.nxt, finSent := c'.tx.finSent),
                pace := c.pace.(rtoAt := c'.pace.rtoAt, rtt := c'.pace.rtt, owed := c'.pace.owed), sent := c'.sent)
    && c.sent <= c'.sent
    && c.tx.nxt <= c'.tx.nxt && Contiguous(c'.sent[|c.sent|..], c.tx.nxt, c'.tx.nxt)
    && (forall i :: |c.sent| <= i < |c'.sent| ==> Proper(c, c'.sent[i]))
    && Within(c.tx, c'.tx, Limit(c.pace))
    && (!Sending(c.st) ==> c' == c)
    && Started(c.pace, c'.tx.nxt != c.tx.nxt, now, c'.pace.rtoAt) && Timed(c, now, c')
    && c'.pace.owed == if c'.sent == c.sent then c.pace.owed else Paid(c).owed
  }

  /** `tcp_output`: it sends, and in a sending state stops only when nothing more can be sent. */
  predicate OutputSpec(c: Conn, now: nat, c': Conn) {
    Sends(c, now, c') && (Sending(c.st) ==> Exhausted(c'))
  }

  /** Bytes of text sent and not yet acknowledged. */
  function TextInFlight(t: Tx): int { if t.nxt <= |t.written| + 1 then t.nxt - t.una else |t.Unacked()| }

  /** A retransmission: the SYN, as much of the oldest unacknowledged text as fits a segment, or the FIN. */
  predicate Retransmits(c: Conn, e: Sent) {
    && e.pos == c.tx.una && !e.seg.rst
    && (e.seg.syn <==> c.tx.una == 0)
    && (c.tx.una > 0 ==> |e.seg.data| == Min(TextInFlight(c.tx), c.pace.flow.mss))
    && (e.seg.fin <==> c.tx.una > 0 && TextInFlight(c.tx) == 0)
  }

  // ---------------------------------------------------------------- the application

  /** What one pass of `pf_send` takes of `rest` bytes when the ring has `space`: the length is cut to 32 bits. */
  function Pass(rest: nat, space: int): (n: int)
    ensures n <= rest && n <= space && (space >= 0 ==> n >= 0)
  {
    Min(rest % MODULUS, space)
  }

  /** `pf_sock_set_nodelay`. */
  function NagleSet(c: Conn, nodelay: bool): Conn { c.(pace := c.pace.(flow := c.pace.flow.(nodelay := nodelay))) }

  /** One pass of the `pf_send` loop: bytes go to the end of the stream, then to `tcp_output`. */
  predicate WriteSpec(c: Conn, data: seq<byte>, n: nat, now: nat, c': Conn) {
    && n == Pass(|data|, RING - |c.tx.Unacked()|)
    && n <= |data|
    && OutputSpec(c.(tx := c.tx.(written := c.tx.written + data[..n])), now, c')
  }

  /** A window that was last told to be closed has room for a segment again. */
  predicate Reopens(c: Conn) { c.pace.owed.told == 0 && c.rx.Window() >= c.pace.flow.mss }

  /** The ring read of `pf_recv`: the oldest unread bytes, with a window announcement when it reopens. */
  predicate ReadSpec(c: Conn, cap: nat, bytes: seq<byte>, c': Conn) {
    && c.rx.read + |bytes| <= |c.rx.rcvd| && |bytes| == Min(cap % MODULUS, |c.rx.Unread()|)
    && bytes == c.rx.rcvd[c.rx.read..c.rx.read + |bytes|]
    && var r := c.(rx := c.rx.(read := c.rx.read + |bytes|));
       0 <= r.rx.Window() && c' == if c.rx.Unread() != [] && Reopens(r) then Acked(r) else r
  }

  /** `tcp_app_close`. */
  predicate CloseSpec(c: Conn, now: nat, c': Conn) {
    if c.st == SynSent then c' == Freed(c)
    else if c.st == Established || c.st == CloseWait then
      OutputSpec(c.(tx := c.tx.(closed := true, closedFirst := !c.rx.eof),
                    st := if c.rx.eof then LastAck else FinWait1), now, c')
    else c' == c
  }

  /** `tcp_app_abort`: a RST, unless the peer has not been heard of, and the block is gone. */
  predicate AbortSpec(c: Conn, c': Conn) {
    if c.st == SynSent then c' == Freed(c) else Reset(Freed(c), c')
  }

  // ---------------------------------------------------------------- segment arrives

  /** The positions an arriving segment is read as: the nearest to what the receiver expects. */
  function SegPos(c: Conn, seg: Segment): int { Unwrap(c.irs, c.rx.RcvNxt(), seg.seqno) }
  function AckPos(c: Conn, seg: Segment): int { Unwrap(c.iss, c.tx.nxt, seg.ackno) }

  /** The acceptability test of section 3.10.7.4 of RFC 9293, on positions. */
  predicate Acceptable(c: Conn, seg: Segment) {
    var p, n, w, len := SegPos(c, seg), c.rx.RcvNxt(), c.rx.Window(), seg.SeqLen();
    if len == 0 then (if w == 0 then p == n else n <= p < n + w)
    else w > 0 && (n <= p < n + w || n <= p + len - 1 < n + w)
  }

  /** The segment is in window, neither RST nor SYN, and carries an acknowledgment of something sent. */
  predicate Processed(c: Conn, seg: Segment) {
    && Acceptable(c, seg) && !seg.rst && !seg.syn && seg.acks
    && AckPos(c, seg) <= c.tx.nxt
    && (c.st == SynRcvd ==> 0 < AckPos(c, seg))
  }

  /** It acknowledges something new. */
  predicate Progress(c: Conn, seg: Segment) { AckPos(c, seg) > c.tx.una }

  /** The outgoing stream after a processed acknowledgment. */
  function TxAcked(c: Conn, seg: Segment): Tx {
    c.tx.(una := if Progress(c, seg) then AckPos(c, seg) else c.tx.una)
  }

  /** A duplicate acknowledgment: it repeats the last one while something is in flight. */
  predicate IsDuplicate(c: Conn, seg: Segment) {
    AckPos(c, seg) == c.tx.una && seg.SeqLen() == 0 && seg.wnd == c.pace.sndWnd && c.tx.una < c.tx.nxt
  }

  /** The third in a row. */
  predicate IsThird(c: Conn, seg: Segment) {
    c.st != SynRcvd && IsDuplicate(c, seg) && Wrap(c.pace.flow.dupacks + 1) == 3
  }

  /** The congestion window after a processed segment. */
  function CwndAfter(c: Conn, seg: Segment): nat {
    var a, f := AckPos(c, seg), c.pace.flow;
    if c.st == SynRcvd then StartWindow(f.mss)
    else if Progress(c, seg) then GrownWindow(c.pace.cwnd, f.ssthresh, f.dupacks, DataAcked(c.tx, a), f.mss)
    else if IsDuplicate(c, seg) then
      DuplicateWindow(c.pace.cwnd, Wrap(f.dupacks + 1), c.tx.nxt - c.tx.una, f.mss)
    else c.pace.cwnd
  }

  /**
   * The segment updates SND.WND: its acknowledgment is in the send window, and it is newer than the last update.
   * The 32-bit test also lets through a number exactly 2^31 old.
   */
  predicate Updates(c: Conn, seg: Segment) {
    || c.st == SynRcvd
    || ((AckPos(c, seg) >= c.tx.una || AckPos(c, seg) == c.tx.una - HALF) && Newer(c.pace.flow, seg))
  }

  /** The peer's window after a processed segment. */
  function WndAfter(c: Conn, seg: Segment): nat { if Updates(c, seg) then seg.wnd else c.pace.sndWnd }

  /** One more duplicate is counted; the third halves the threshold. */
  function CountedDuplicate(f: Flow, inFlight: nat): Flow {
    var dups := Wrap(f.dupacks + 1);
    f.(dupacks := dups, ssthresh := if dups == 3 then Wrap(Halved(inFlight, f.mss)) else f.ssthresh)
  }

  /** The congestion state after a processed segment. */
  function FlowAcked(c: Conn, seg: Segment): Flow {
    var f := c.pace.flow;
    if c.st == SynRcvd then f.(ssthresh := 0xffff_ffff)
    else if Progress(c, seg) then f.(dupacks := 0)
    else if IsDuplicate(c, seg) then CountedDuplicate(f, c.tx.nxt - c.tx.una)
    else f
  }

  /** With the last window update. */
  function FlowAfter(c: Conn, seg: Segment): Flow {
    var g := FlowAcked(c, seg);
    if Updates(c, seg) then g.(wl1 := seg.seqno, wl2 := seg.ackno) else g
  }

  /** Both windows and what they are computed from move as specified, unless the connection is gone. */
  predicate Windowed(c: Conn, seg: Segment, c': Conn) {
    c'.st != Closed ==>
      && c'.pace.cwnd == CwndAfter(c, seg) && c'.pace.sndWnd == WndAfter(c, seg)
      && c'.pace.flow == FlowAfter(c, seg)
  }

  /** `m'` is `m` after the round trip `r` was measured: section 2 of RFC 6298, in whole milliseconds. */
  predicate Sampled(m: Rtt, r: nat, m': Rtt) {
    && (m.srtt < 0 ==> m'.srtt == r && m'.rttvar == r / 2)
    && (m.srtt >= 0 ==> 8 * m'.srtt <= 7 * m.srtt + r < 8 * m'.srtt + 8)
    && (m.srtt >= 0 ==> 4 * m'.rttvar <= 3 * m.rttvar + Max(m.srtt - r, r - m.srtt) < 4 * m'.rttvar + 4)
    && m'.rto == Min(RTO_MAX, Max(RTO_MIN, m'.srtt + Max(CLOCK_G, 4 * m'.rttvar)))
  }

  /** The acknowledgment covers the text being timed. */
  predicate Measures(c: Conn, seg: Segment) {
    Progress(c, seg) && c.pace.rtt.timing && AckPos(c, seg) >= c.pace.rtt.upTo
  }

  /** The timer after a processed segment: a sample is taken when due, and progress restarts or stops the timer. */
  predicate Rescheduled(c: Conn, seg: Segment, now: nat, c': Conn) {
    var m, m' := c.pace.rtt, c'.pace.rtt;
    && (if Measures(c, seg) then Sampled(m, Wrap(now - m.since), m')
        else m'.srtt == m.srtt && m'.rttvar == m.rttvar && m'.rto == m.rto)
    && (m'.timing ==>
          || (m.timing && !Measures(c, seg) && m'.upTo == m.upTo && m'.since == m.since)
          || (c.tx.nxt < m'.upTo && m'.since == now))
    && (c'.st != Closed ==>
          if Progress(c, seg) then
            c'.pace.rtx == 0 && c'.pace.rtoAt == if c'.tx.una == c'.tx.nxt then 0 else now + m'.rto
          else c'.pace.rtx == c.pace.rtx && Started(c.pace, c'.tx.nxt != c.tx.nxt, now, c'.pace.rtoAt))
  }

  /** Text and FIN are still taken after that acknowledgment. */
  predicate Takes(c: Conn, seg: Segment) { Receiving(StateOf(TxAcked(c, seg), c.rx.eof)) }

  /** The incoming stream after the text of a processed segment. */
  function RxText(c: Conn, seg: Segment): Rx {
    if Takes(c, seg) && seg.data != [] then Receive(c.rx, SegPos(c, seg), seg.data) else c.rx
  }

  /** A processed FIN counts when it sits exactly at the end of what has been received. */
  predicate FinTaken(c: Conn, seg: Segment) {
    seg.fin && Takes(c, seg) && SegPos(c, seg) + |seg.data| == RxText(c, seg).RcvNxt()
  }

  /** The incoming stream after text and FIN. */
  function RxAfter(c: Conn, seg: Segment): Rx {
    if FinTaken(c, seg) then RxText(c, seg).(eof := true) else RxText(c, seg)
  }

  /** Text that is taken but brings nothing in order: all of it old, or ahead of a hole inside the window. */
  predicate OutOfOrder(c: Conn, seg: Segment) {
    && Takes(c, seg) && seg.data != []
    && var p, n := SegPos(c, seg), c.rx.RcvNxt();
       p + |seg.data| <= n || n < p < c.rx.RightEdge()
  }

  /** The last segment sent is the bare acknowledgment of all that has been received. */
  predicate JustAcked(c: Conn) {
    0 <= c.rx.Window() && c.sent != [] && c.sent[|c.sent| - 1] == Build(c, c.tx.nxt, [], false, true, false)
  }

  /** The first segment sent since is one that tells. */
  predicate Told(c: Conn, c': Conn) { |c.sent| < |c'.sent| && Tells(c'.sent[|c.sent|]) }

  /** Nothing more could be sent if the peer's window were `wnd`. */
  predicate Drained(c: Conn, wnd: nat) { Exhausted(c.(pace := c.pace.(sndWnd := wnd))) }

  /** The segment reopens a closed window. */
  predicate Opens(c: Conn, seg: Segment) { c.pace.sndWnd == 0 && Updates(c, seg) && seg.wnd > 0 }

  /** The segment makes progress, or is a duplicate after the third. */
  predicate Drives(c: Conn, seg: Segment) {
    Progress(c, seg) || (IsDuplicate(c, seg) && Wrap(c.pace.flow.dupacks + 1) > 3)
  }

  /**
   * The send engine has run: when the segment reopens the peer's window, with the new window; on progress, and on a
   * duplicate after the third, with the window as it was before. Any other segment sends nothing new.
   */
  predicate Driven(c: Conn, seg: Segment, c': Conn) {
    && (c'.st != Closed && Sending(StateOf(TxAcked(c, seg), c.rx.eof)) ==>
          && (Opens(c, seg) ==> Drained(c', c'.pace.sndWnd))
          && (!Opens(c, seg) && Drives(c, seg) ==> Drained(c', c.pace.sndWnd)))
    && (c'.st != Closed && !Opens(c, seg) && !Drives(c, seg) ==> c'.tx == c.tx)
  }

  /**
   * What is owed after a processed segment. In-order text is acknowledged at once if something was owed already,
   * and otherwise within 40 milliseconds; text out of order and a FIN are acknowledged at once.
   */
  predicate Owing(c: Conn, seg: Segment, now: nat, c': Conn) {
    var before, after := c.pace.owed, c'.pace.owed;
    && (after.due == 0 ||
        if c'.rx.RcvNxt() == c.rx.RcvNxt() then after == before
        else after.count == 1 && after.due == now + DELACK && (before.count == 0 || Told(c, c')))
    && (OutOfOrder(c, seg) || FinTaken(c, seg) ==> after.due == 0 && JustAcked(c') && |c.sent| < |c'.sent|)
  }

  /** A processed segment ends the connection when it meets a full backlog or acknowledges the last FIN. */
  predicate Ends(c: Conn, seg: Segment, backlogFull: bool) {
    (c.st == SynRcvd && backlogFull) || (c.st == LastAck && TxAcked(c, seg).FinAcked())
  }

  /** A FIN at the next expected position in TIME-WAIT; the first one was consumed there. */
  predicate FinAgain(c: Conn, seg: Segment) {
    c.st == TimeWait && seg.fin && SegPos(c, seg) + |seg.data| == c.rx.RcvNxt()
  }

  /** When TIME-WAIT ends: two segment lifetimes after it was entered. */
  predicate WaitSet(c: Conn, seg: Segment, now: nat, c': Conn) {
    c'.pace.waitUntil ==
      if c'.st == TimeWait && (c.st != TimeWait || FinAgain(c, seg)) then now + 2 * MSL else c.pace.waitUntil
  }

  /** A processed segment: both halves of the connection move as specified, and nothing else does. */
  predicate ProcessedSpec(c: Conn, seg: Segment, now: nat, backlogFull: bool, c': Conn) {
    && c'.tx == TxAcked(c, seg).(nxt := c'.tx.nxt, finSent := c'.tx.finSent)
    && Within(TxAcked(c, seg), c'.tx, c'.pace.cwnd)
    && (!Sending(StateOf(TxAcked(c, seg), c.rx.eof)) ==> c'.tx == TxAcked(c, seg))
    && Windowed(c, seg, c') && Driven(c, seg, c')
    && c'.rx == (if Ends(c, seg, backlogFull) then c.rx else RxAfter(c, seg))
    && (c'.st == Closed <==> Ends(c, seg, backlogFull))
    && c'.iss == c.iss && c'.irs == c.irs && c'.synced == c.synced
    && c'.pace.fires == c.pace.fires && Rescheduled(c, seg, now, c')
    && (!Ends(c, seg, backlogFull) ==> Owing(c, seg, now, c') && WaitSet(c, seg, now, c'))
    && (IsThird(c, seg) ==> |c.sent| < |c'.sent| && Retransmits(c, c'.sent[|c.sent|]))
    && (c.st == SynRcvd && backlogFull ==> |c'.sent| == |c.sent| + 1 && IsReset(c, c'.sent[|c.sent|]))
  }

  /** The connection that knows its peer: the origin of its stream and its segment size. */
  function Joined(c: Conn, seg: Segment): Conn {
    c.(irs := seg.seqno, synced := true, pace := c.pace.(flow := c.pace.flow.(mss := EffectiveMss(seg.mss))))
  }

  /** And whose SYN the peer has acknowledged. */
  function JoinedAcked(c: Conn, seg: Segment): Conn {
    var mss := EffectiveMss(seg.mss);
    Joined(c, seg).(st := Established, tx := c.tx.(una := 1),
                    pace := c.pace.(sndWnd := seg.wnd, cwnd := StartWindow(mss), rtoAt := 0, rtx := 0,
                                    flow := c.pace.flow.(ssthresh := 0xffff_ffff, mss := mss, wl1 := seg.seqno,
                                                         wl2 := seg.ackno)))
  }

  /** SYN-SENT, section 3.10.7.3 of RFC 9293. */
  predicate SynSentSpec(c: Conn, seg: Segment, c': Conn)
    requires 0 <= c.rx.Window()
  {
    if seg.acks && !(0 < AckPos(c, seg) <= c.tx.nxt) then c' == Refused(c, seg)
    else if seg.rst then c' == if seg.acks then Freed(c) else c
    else if seg.syn && seg.acks then c' == Acked(JoinedAcked(c, seg))
    else if seg.syn then
      var d := Joined(c, seg).(st := SynRcvd);
      c' == d.(sent := d.sent + [Build(d, 0, [], true, true, false)], pace := Paid(d))
    else c' == c
  }

  /** `tcp_input` on a live connection, for an arbitrary segment. */
  predicate InputSpec(c: Conn, seg: Segment, now: nat, backlogFull: bool, c': Conn)
    requires 0 <= c.rx.Window()
  {
    if c.st == SynSent then SynSentSpec(c, seg, c')
    else if !Acceptable(c, seg) then c' == if seg.rst then c else Acked(c)
    else if seg.rst then c' == if SegPos(c, seg) == c.rx.RcvNxt() then Freed(c) else Acked(c)
    else if seg.syn then c' == Acked(c)
    else if !seg.acks then c' == c
    else if Processed(c, seg) then ProcessedSpec(c, seg, now, backlogFull, c')
    else if c.st == SynRcvd then c' == Refused(c, seg)
    else c' == Acked(c)
  }

  // ---------------------------------------------------------------- the clock

  /** The timer has expired. */
  predicate Overdue(c: Conn, now: nat) { c.pace.rtoAt != 0 && now >= c.pace.rtoAt }

  /** A delayed acknowledgment is due. */
  predicate AckDue(c: Conn, now: nat) { c.pace.owed.due != 0 && now >= c.pace.owed.due }

  /** The pace after an expiry that is not the last: window collapsed, timeout doubled, nothing timed. */
  function BackedOff(c: Conn, now: nat): Pace
    requires FlowInv(c.pace.flow)
  {
    var p := c.pace;
    var rto := Min(2 * p.rtt.rto, RTO_MAX);
    p.(cwnd := p.flow.mss, rtoAt := now + rto, rtx := p.rtx + 1, fires := p.fires + 1,
       flow := p.flow.(ssthresh := Wrap(Halved(Max(c.tx.nxt - c.tx.una, 0), p.flow.mss)), dupacks := 0),
       rtt := p.rtt.(rto := rto, timing := false),
       owed := if c.synced then Paid(c).owed else p.owed)
  }

  /** `tcp_tick` for one connection. */
  predicate TickSpec(c: Conn, now: nat, c': Conn)
    requires 0 <= c.rx.Window() && FlowInv(c.pace.flow)
  {
    && c' == c.(st := c'.st, tx := c.tx.(nxt := c'.tx.nxt), pace := c'.pace, sent := c'.sent)
    && c.sent <= c'.sent
    && if c.st == TimeWait then
         c' == if now >= c.pace.waitUntil then Freed(c) else c
       else if Overdue(c, now) then
         && c'.pace.fires == c.pace.fires + 1 && c'.tx.nxt == c.tx.nxt && |c'.sent| == |c.sent| + 1
         && if c.pace.rtx == MAX_RTX then c'.st == Closed && IsReset(c, c'.sent[|c.sent|])
            else c'.st == c.st && c'.pace == BackedOff(c, now) && Retransmits(c, c'.sent[|c.sent|])
       else if ProbeDue(c) then
         && c'.tx.nxt == c.tx.nxt + 1 && c'.st == c.st && c'.pace == Paid(c).(rtoAt := now + c.pace.rtt.rto)
         && |c'.sent| == |c.sent| + 1
         && c'.sent[|c.sent|].pos == c.tx.nxt && c'.sent[|c.sent|].seg.data == c.tx.Unacked()[..1]
       else
         c' == if AckDue(c, now) then Acked(c) else c
  }
}
