/** The send half of `struct tcp_cb`, its retransmission timer and its congestion window. */
module TcpSender {
  import opened SeqSpace
  import opened Common
  import opened ByteRings
  import opened TcpSpec
  import opened TcpEvents
  import opened TcpSteps

  const RTO_INITIAL: nat := 1000

  class SendHalf {
    const iss: Word32
    var una: Word32
    var nxt: Word32
    var wnd: nat
    var wl1: Word32
    var wl2: Word32
    var mss: nat
    var nodelay: bool
    var finQueued: bool
    var finSent: bool
    const ring: ByteRing
    /** The stream sent so far. */
    ghost var tx: Tx

    ghost predicate Valid()
      reads this, ring, ring.buf
    {
      && ring.Valid() && SendInv(tx)
      && una == Wrap(iss + tx.una) && nxt == Wrap(iss + tx.nxt)
      && finQueued == tx.closed && finSent == tx.finSent
      && ring.contents == tx.Unacked()
      && 1 <= mss <= OUR_MSS
    }

    constructor (iss: Word32)
      ensures Valid() && this.iss == iss && tx == Tx([], 0, 1, false, false, false) && wnd == 0
      ensures fresh(ring) && fresh(ring.buf)
    {
      this.iss, una, nxt, wnd, wl1, wl2 := iss, iss, Wrap(iss + 1), 0, 0, 0;
      mss, nodelay, finQueued, finSent := DEFAULT_MSS, false, false, false;
      ring := new ByteRing();
      tx := Tx([], 0, 1, false, false, false);
    }

    /** Sequence positions in flight. */
    function InFlight(): Word32
      reads this
    {
      Wrap(nxt - una)
    }

    /** `tcp_data_in_flight`. */
    function DataInFlight(): Word32
      reads this
    {
      if finSent && InFlight() > 0 then InFlight() - 1 else InFlight()
    }

    /** The 32-bit differences are the true ones, and data in flight never exceeds what the ring holds. */
    lemma Flight()
      requires Valid()
      ensures ring.Valid() && ring.contents == tx.Unacked() && nxt == Wrap(iss + tx.nxt) && una == Wrap(iss + tx.una)
      ensures finSent == tx.finSent && finQueued == tx.closed && SendInv(tx) && 1 <= mss <= OUR_MSS
      ensures InFlight() == tx.nxt - tx.una
      ensures tx.una >= 1 ==> DataInFlight() <= ring.len && ring.len == |tx.Unacked()|
      ensures tx.una >= 1 ==> DataInFlight() == (if tx.nxt <= |tx.written| + 1 then tx.nxt - tx.una else ring.len)
    {
      SubExact(iss, tx.nxt, tx.una);
    }

    lemma Sized()
      requires Valid()
      ensures 1 <= mss <= OUR_MSS
    {
    }

    /** The ring part of `pf_send`. */
    method Append(data: seq<byte>) returns (n: nat)
      requires Valid() && 1 <= tx.una && !tx.closed
      modifies this`tx, ring, ring.buf
      ensures Valid() && n == Min(|data| % MODULUS, RING - |old(tx).Unacked()|)
      ensures n <= |data| && tx == old(tx).(written := old(tx).written + data[..n])
    {
      hide Wrap;
      n := ring.Put(data[..|data| % MODULUS]);
      tx := tx.(written := tx.written + data[..n]);
    }

    /** Data or a probe has been sent: `snd_nxt += n`. */
    method Advance(n: nat)
      requires Valid() && !tx.finSent && 1 <= tx.una && tx.nxt + n <= |tx.written| + 1
      modifies this`nxt, this`tx
      ensures Valid() && tx == old(tx).(nxt := old(tx).nxt + n)
    {
      hide Wrap;
      AddExact(iss, tx.nxt, n);
      nxt := Wrap(nxt + n);
      tx := tx.(nxt := tx.nxt + n);
    }

    /** The FIN has been sent. */
    method AdvanceFin()
      requires Valid() && !tx.finSent && tx.closed && 1 <= tx.una && tx.nxt == |tx.written| + 1
      modifies this`nxt, this`tx, this`finSent
      ensures Valid() && tx == old(tx).(nxt := old(tx).nxt + 1, finSent := true)
    {
      hide Wrap;
      AddExact(iss, tx.nxt, 1);
      finSent := true;
      nxt := Wrap(nxt + 1);
      tx := tx.(nxt := tx.nxt + 1, finSent := true);
    }

    /** The application has closed. */
    method CloseStream(first: bool)
      requires Valid() && 1 <= tx.una && !tx.closed
      modifies this`finQueued, this`tx
      ensures Valid() && tx == old(tx).(closed := true, closedFirst := first)
    {
      hide Wrap;
      finQueued := true;
      tx := tx.(closed := true, closedFirst := first);
    }

    /** What the peer's SYN says: its window and its MSS. */
    method SetPeer(wnd: nat, wl1: Word32, wl2: Word32, mss: nat)
      requires Valid() && 1 <= mss <= OUR_MSS
      modifies this`wnd, this`wl1, this`wl2, this`mss
      ensures Valid() && this.wnd == wnd && this.mss == mss && this.wl1 == wl1 && this.wl2 == wl2
    {
      hide Wrap;
      this.wnd, this.wl1, this.wl2, this.mss := wnd, wl1, wl2, mss;
    }

    /** The effective MSS alone. */
    method SetMss(mss: nat)
      requires Valid() && 1 <= mss <= OUR_MSS
      modifies this`mss
      ensures Valid() && this.mss == mss
    {
      hide Wrap;
      this.mss := mss;
    }

    /** SND.WND maintenance. */
    method SetWindow(wnd: nat, wl1: Word32, wl2: Word32)
      requires Valid()
      modifies this`wnd, this`wl1, this`wl2
      ensures Valid() && this.wnd == wnd && this.wl1 == wl1 && this.wl2 == wl2
    {
      hide Wrap;
      this.wnd, this.wl1, this.wl2 := wnd, wl1, wl2;
    }

    /** Our SYN is acknowledged by a segment that also tells the peer's window. */
    method SynAcked(ack: Word32, wnd: nat, seqno: Word32)
      requires Valid() && tx.una == 0 && ack == Wrap(iss + 1)
      modifies this`una, this`tx, this`wnd, this`wl1, this`wl2
      ensures Valid() && tx == old(tx).(una := 1) && this.wnd == wnd && wl1 == seqno && wl2 == ack
      ensures 1 <= mss <= OUR_MSS
    {
      hide Wrap;
      una := ack;
      this.wnd, wl1, wl2 := wnd, seqno, ack;
      tx := tx.(una := 1);
    }

    /**
     * A new acknowledgment: release exactly the acknowledged bytes. The FIN takes a sequence position
     * but no buffer space, and an acknowledgment never releases more than the ring holds.
     */
    method Release(ack: Word32, ghost pos: nat) returns (dbytes: nat, finAcked: bool)
      requires Valid() && ack == Wrap(iss + pos) && 1 <= tx.una < pos <= tx.nxt
      modifies this`una, this`tx, ring
      ensures Valid() && tx == old(tx).(una := pos)
      ensures finAcked == tx.FinAcked()
      ensures dbytes == |old(tx).Unacked()| - |tx.Unacked()| == DataAcked(old(tx), pos)
    {
      hide Wrap;
      SubExact(iss, pos, tx.una);
      Compare(iss, pos, tx.nxt);
      var acked := Wrap(ack - una);
      finAcked := finSent && ack == nxt;
      dbytes := acked - (if finAcked then 1 else 0);
      ring.Drop(dbytes);
      una := ack;
      tx := tx.(una := pos);
    }
  }

  /** A sample does not depend on what is being timed. */
  lemma SampledOnly(m: Rtt, r: nat, m': Rtt)
    requires Sampled(m, r, m')
    ensures Sampled(m, r, m'.(timing := false))
  {
  }

  /** RFC 6298: smoothed round-trip time, timeout and backoff. */
  class RtoTimer {
    var srtt: int
    var rttvar: int
    var rtoMs: nat
    var deadline: nat
    var rtxCount: nat
    var timing: bool
    var rttSeq: Word32
    var rttStart: nat
    /** The position `rttSeq` stands for. */
    ghost var rttPos: nat
    /** Expiries in all. */
    ghost var fires: nat

    ghost function Measure(): Rtt
      reads this
    {
      Rtt(srtt, rttvar, rtoMs, timing, rttPos, rttStart)
    }

    ghost predicate Valid()
      reads this
    {
      RTO_MIN <= rtoMs <= RTO_MAX && (srtt >= 0 ==> rttvar >= 0) && rtxCount <= MAX_RTX && rtxCount <= fires
    }

    constructor ()
      ensures Valid() && deadline == 0 && rtxCount == 0 && fires == 0 && !timing && rtoMs == RTO_INITIAL && srtt < 0
    {
      srtt, rttvar, rtoMs, deadline, rtxCount := -1, -1, RTO_INITIAL, 0, 0;
      timing, rttSeq, rttStart, fires, rttPos := false, 0, 0, 0, 0;
    }

    /** `tcp_arm_rto`: a running timer is left alone. */
    method Arm(now: nat)
      requires Valid()
      modifies this`deadline
      ensures Valid() && deadline != 0 && deadline == if old(deadline) != 0 then old(deadline) else now + rtoMs
    {
      if deadline == 0 {
        deadline := now + rtoMs;
      }
    }

    /** New text up to `upTo` was sent: time it unless a round trip is being timed, and arm the timer. */
    method TextSent(upTo: Word32, now: nat, ghost pos: nat)
      requires Valid()
      modifies this
      ensures Valid() && deadline != 0 && deadline == if old(deadline) != 0 then old(deadline) else now + rtoMs
      ensures rtxCount == old(rtxCount) && fires == old(fires) && Measure() == TimedUpTo(old(Measure()), pos, now)
      ensures rttSeq == if old(timing) then old(rttSeq) else upTo
    {
      if !timing {
        timing, rttSeq, rttStart := true, upTo, now;
        rttPos := pos;
      }
      Arm(now);
    }

    /** `tcp_rtt_sample`: whatever the measurement, the timeout stays within its bounds. */
    method Sample(r: Word32)
      requires Valid()
      modifies this`srtt, this`rttvar, this`rtoMs
      ensures Valid() && 0 <= srtt && 0 <= rttvar && Sampled(old(Measure()), r, Measure())
    {
      if srtt < 0 {
        srtt, rttvar := r, r / 2;
      } else {
        var err := srtt - r;
        if err < 0 {
          err := -err;
        }
        rttvar := (3 * rttvar + err) / 4;
        srtt := (7 * srtt + r) / 8;
      }
      var rto := srtt + Max(CLOCK_G, 4 * rttvar);
      if rto < RTO_MIN {
        rto := RTO_MIN;
      }
      if rto > RTO_MAX {
        rto := RTO_MAX;
      }
      rtoMs := rto;
    }

    /** An acknowledgment made progress: take the pending sample, forget the backoff count, restart or stop. */
    method Progress(ack: Word32, outstanding: bool, now: nat, ghost a: nat)
      requires Valid() && (timing ==> (SeqGe(ack, rttSeq) <==> a >= rttPos))
      modifies this
      ensures Valid() && fires == old(fires) && rtxCount == 0
      ensures deadline == if outstanding then now + rtoMs else 0
      ensures if old(timing) && a >= old(rttPos)
        then Sampled(old(Measure()), Wrap(now - old(rttStart)), Measure()) && !timing
        else Measure() == old(Measure()) && rttSeq == old(rttSeq)
    {
      hide Wrap, Sampled, SeqGe;
      if timing && SeqGe(ack, rttSeq) {
        Sample(Wrap(now - rttStart));
        SampledOnly(old(Measure()), Wrap(now - rttStart), Measure());
        timing := false;
      }
      rtxCount := 0;
      deadline := if outstanding then now + rtoMs else 0;
    }

    /** An expiry: count it; past the limit the connection is given up, otherwise the timeout doubles. */
    method Expire(now: nat) returns (giveUp: bool)
      requires Valid() && deadline != 0
      modifies this`rtxCount, this`rtoMs, this`deadline, this`fires
      ensures Valid() && deadline != 0
      ensures fires == old(fires) + 1 && giveUp == (old(rtxCount) == MAX_RTX)
      ensures if giveUp then rtxCount == old(rtxCount) && rtoMs == old(rtoMs) && deadline == old(deadline)
              else rtxCount == old(rtxCount) + 1 && rtoMs == Min(2 * old(rtoMs), RTO_MAX) && deadline == now + rtoMs
    {
      fires := fires + 1;
      if rtxCount + 1 > MAX_RTX {
        return true;
      }
      rtxCount := rtxCount + 1;
      rtoMs := Min(rtoMs * 2, RTO_MAX);
      deadline := now + rtoMs;
      return false;
    }

    /** The timer of a freed block, or of one in TIME_WAIT. */
    method Stop()
      requires Valid()
      modifies this`deadline, this`rtxCount
      ensures Valid() && deadline == 0 && rtxCount == 0
    {
      deadline, rtxCount := 0, 0;
    }
  }

  /** RFC 5681: slow start, congestion avoidance, fast recovery. */
  class Congestion {
    var cwnd: Word32
    var ssthresh: Word32
    var dupacks: Word32

    ghost predicate Valid()
      reads this
    {
      2 <= ssthresh
    }

    constructor ()
      ensures Valid() && cwnd == 4 * DEFAULT_MSS
    {
      cwnd, ssthresh, dupacks := 4 * DEFAULT_MSS, 0xffff_ffff, 0;
    }

    /** `tcp_cwnd_init`. */
    method Start(mss: nat)
      requires 1 <= mss <= OUR_MSS
      modifies this`cwnd, this`ssthresh
      ensures Valid() && cwnd == StartWindow(mss) && 0 < cwnd && ssthresh == 0xffff_ffff
    {
      cwnd := Min(4 * mss, Max(2 * mss, 4380));
      ssthresh := 0xffff_ffff;
    }

    method NewAck(dbytes: nat, mss: nat)
      requires Valid()
      modifies this`cwnd, this`dupacks
      ensures Valid() && dupacks == 0
      ensures cwnd == GrownWindow(old(cwnd), ssthresh, old(dupacks), dbytes, mss)
    {
      if dupacks >= 3 {
        cwnd := ssthresh;
      } else if cwnd < ssthresh {
        cwnd := Wrap(cwnd + Min(dbytes, mss));
      } else {
        cwnd := Wrap(cwnd + Max(1, mss * mss / cwnd));
      }
      dupacks := 0;
    }

    /** Half of what is in flight, but at least two segments. */
    method Halve(inFlight: nat, mss: nat)
      requires 1 <= mss <= OUR_MSS && inFlight < MODULUS
      modifies this`ssthresh
      ensures Valid() && ssthresh == Halved(inFlight, mss)
    {
      ssthresh := Max(inFlight / 2, 2 * mss);
    }

    /** A timeout collapses the window: equation (4) of section 3.1 of RFC 5681. */
    method Timeout(inFlight: nat, mss: nat)
      requires Valid() && 1 <= mss <= OUR_MSS && 0 < inFlight < MODULUS
      modifies this
      ensures Valid() && cwnd == mss && dupacks == 0 && ssthresh == Halved(inFlight, mss)
    {
      Halve(inFlight, mss);
      cwnd, dupacks := mss, 0;
    }

    /** Count a duplicate acknowledgment: the third starts fast recovery, later ones inflate the window. */
    method Duplicate(inFlight: nat, mss: nat) returns (fast: bool)
      requires Valid() && 1 <= mss <= OUR_MSS && inFlight < MODULUS
      modifies this
      ensures Valid() && dupacks == Wrap(old(dupacks) + 1) && fast == (dupacks == 3)
      ensures ssthresh == if fast then Halved(inFlight, mss) else old(ssthresh)
      ensures cwnd == DuplicateWindow(old(cwnd), dupacks, inFlight, mss)
    {
      dupacks := Wrap(dupacks + 1);
      fast := dupacks == 3;
      if fast {
        Halve(inFlight, mss);
        cwnd := Wrap(ssthresh + 3 * mss);
      } else if dupacks > 3 {
        cwnd := Wrap(cwnd + mss);
      }
    }
  }

  lemma FactorAtMost(q: int, c: int, r: nat, x: nat)
    requires 0 < c && x == c * q + r
    ensures q <= x
  {
  }

  lemma QuotientAtMost(x: nat, c: nat)
    requires 0 < c
    ensures x / c <= x
  {
    DivMod(x, c);
    FactorAtMost(x / c, c, x % c, x);
  }

  lemma SquareAtMost(m: nat, b: nat)
    requires m <= b
    ensures m * m <= b * b
  {
    assert b * b - m * m == (b - m) * (b + m);
  }

  lemma IncrementSmall(cwnd: Word32, ssthresh: Word32, dbytes: nat, mss: nat)
    requires 0 < cwnd && mss <= OUR_MSS
    ensures Increment(cwnd, ssthresh, dbytes, mss) <= OUR_MSS * OUR_MSS
  {
    SquareAtMost(mss, OUR_MSS);
    QuotientAtMost(mss * mss, cwnd);
  }

  lemma WrapsToZero(a: Word32, b: nat)
    requires 0 < a && b < MODULUS
    ensures Wrap(a + b) == 0 <==> a + b == MODULUS
  {
  }

  /** A new acknowledgment brings the window to 0 exactly when the 32-bit sum is 2^32. */
  lemma WindowZeroOnlyByWrap(cwnd: Word32, ssthresh: Word32, dupacks: Word32, dbytes: nat, mss: nat)
    requires 2 <= ssthresh && mss <= OUR_MSS && 0 < cwnd
    ensures GrownWindow(cwnd, ssthresh, dupacks, dbytes, mss) == 0 <==>
      dupacks < 3 && cwnd + Increment(cwnd, ssthresh, dbytes, mss) == MODULUS
  {
    hide Wrap;
    IncrementSmall(cwnd, ssthresh, dbytes, mss);
    WrapsToZero(cwnd, Increment(cwnd, ssthresh, dbytes, mss));
  }

  /**
   * A duplicate does so exactly when it inflates the window to 2^32. Something is then in flight under
   * the timer, and the next new acknowledgment sets the window to the threshold.
   */
  lemma DuplicateZeroOnlyByWrap(cwnd: Word32, ssthresh: Word32, dupacks: Word32, inFlight: nat, dbytes: nat, mss: nat)
    requires 2 <= ssthresh && 1 <= mss <= OUR_MSS && 0 < cwnd && inFlight < MODULUS
    ensures DuplicateWindow(cwnd, dupacks, inFlight, mss) == 0 <==> dupacks > 3 && cwnd + mss == MODULUS
    ensures DuplicateWindow(cwnd, dupacks, inFlight, mss) == 0 ==>
      GrownWindow(DuplicateWindow(cwnd, dupacks, inFlight, mss), ssthresh, dupacks, dbytes, mss) == ssthresh > 0
  {
    WrapSmall(Halved(inFlight, mss) + 3 * mss);
    WrapsToZero(cwnd, mss);
  }

  // ---------------------------------------------------------------- RFC 5681

  /** The initial window of section 3.1: two to four segments, and no more than 4380 bytes beyond two. */
  lemma InitialWindow(mss: nat)
    requires 1 <= mss
    ensures 2 * mss <= StartWindow(mss) <= 4 * mss && StartWindow(mss) <= Max(2 * mss, 4380)
    ensures mss <= 1095 ==> StartWindow(mss) == 4 * mss
    ensures 1095 < mss <= 2190 ==> StartWindow(mss) == 4380
  {
  }

  /** The window after `n` acknowledgments of one full segment each. */
  function AfterAcks(cwnd: Word32, ssthresh: Word32, mss: nat, n: nat): Word32 {
    if n == 0 then cwnd else GrownWindow(AfterAcks(cwnd, ssthresh, mss, n - 1), ssthresh, 0, mss, mss)
  }

  /** Slow start: below the threshold each of them adds a segment, so a window full of them doubles the window. */
  lemma {:induction false} SlowStart(cwnd: Word32, ssthresh: Word32, mss: nat, n: nat)
    requires cwnd + n * mss < ssthresh
    ensures AfterAcks(cwnd, ssthresh, mss, n) == cwnd + n * mss
    ensures n * mss == cwnd ==> AfterAcks(cwnd, ssthresh, mss, n) == 2 * cwnd
    decreases n
  {
    if n > 0 {
      assert n * mss == (n - 1) * mss + mss;
      SlowStart(cwnd, ssthresh, mss, n - 1);
      WrapSmall(cwnd + n * mss);
    }
  }

  lemma TimesGrows(a: nat, b: nat, q: nat)
    requires a <= b
    ensures a * q <= b * q
  {
    assert b * q - a * q == (b - a) * q;
  }

  lemma TimesCancels(a: nat, p: nat, q: nat)
    requires a * p < a * q
    ensures p < q
  {
    if p >= q {
      TimesGrows(q, p, a);
    }
  }

  lemma QuotientShrinks(x: nat, a: nat, b: nat)
    requires 0 < a <= b
    ensures x / b <= x / a
  {
    DivMod(x, a);
    DivMod(x, b);
    TimesGrows(a, b, x / b);
    assert a * (x / a + 1) == a * (x / a) + a;
    TimesCancels(a, x / b, x / a + 1);
  }

  lemma GrowthBound(n: nat, mss: nat, cwnd: nat, q: nat)
    requires 1 <= mss && n * mss <= cwnd && cwnd * q <= mss * mss
    ensures n * q <= mss
  {
    TimesGrows(n * mss, cwnd, q);
    assert n * mss * q == mss * (n * q);
    assert mss * (mss + 1) == mss * mss + mss;
    TimesCancels(mss, n * q, mss + 1);
  }

  lemma GrowthStep(w: Word32, cwnd: Word32, ssthresh: Word32, mss: nat, step: nat)
    requires 2 <= ssthresh <= cwnd <= w && step == Max(1, mss * mss / cwnd) && w + step < MODULUS
    ensures w + 1 <= GrownWindow(w, ssthresh, 0, mss, mss) <= w + step
  {
    hide Wrap;
    QuotientShrinks(mss * mss, cwnd, w);
    WrapSmall(w + Max(1, mss * mss / w));
  }

  /** Congestion avoidance: from the threshold on each of them adds at least a byte and at most mss * mss / cwnd. */
  lemma {:induction false} Avoidance(cwnd: Word32, ssthresh: Word32, mss: nat, n: nat, step: nat)
    requires 2 <= ssthresh <= cwnd && step == Max(1, mss * mss / cwnd) && cwnd + n * step < MODULUS
    ensures cwnd + n <= AfterAcks(cwnd, ssthresh, mss, n) <= cwnd + n * step
    decreases n
  {
    hide GrownWindow;
    if n > 0 {
      assert n * step == (n - 1) * step + step;
      Avoidance(cwnd, ssthresh, mss, n - 1, step);
      GrowthStep(AfterAcks(cwnd, ssthresh, mss, n - 1), cwnd, ssthresh, mss, step);
    }
  }

  /** So a window full of them adds at most one segment, or one byte for each. */
  lemma AvoidanceIsLinear(cwnd: Word32, ssthresh: Word32, mss: nat, n: nat)
    requires 2 <= ssthresh <= cwnd && 1 <= mss && n * mss <= cwnd && cwnd + Max(n, mss) < MODULUS
    ensures cwnd + n <= AfterAcks(cwnd, ssthresh, mss, n) <= cwnd + Max(n, mss)
  {
    hide AfterAcks;
    var q := mss * mss / cwnd;
    DivMod(mss * mss, cwnd);
    GrowthBound(n, mss, cwnd, q);
    var step := Max(1, q);
    assert n * step <= Max(n, mss) by {
      assert step == 1 || step == q;
      assert n * 1 == n;
    }
    Avoidance(cwnd, ssthresh, mss, n, step);
  }

  /** The congestion state and the window after the third duplicate and `k` more. */
  function AfterDuplicates(f: Flow, cwnd: Word32, inFlight: nat, k: nat): (r: (Flow, Word32)) {
    var (g, w) := if k == 0 then (f, cwnd) else AfterDuplicates(f, cwnd, inFlight, k - 1);
    Duplicated(g, w, inFlight)
  }

  function Duplicated(g: Flow, w: Word32, inFlight: nat): (Flow, Word32) {
    var h := CountedDuplicate(g, inFlight);
    (h, DuplicateWindow(w, h.dupacks, inFlight, g.mss))
  }

  lemma ThirdDuplicate(f: Flow, w: Word32, inFlight: nat, half: nat)
    requires f.dupacks == 2 && half == (if inFlight < 4 * f.mss then 2 * f.mss else inFlight / 2)
    requires half + 3 * f.mss < MODULUS
    ensures Duplicated(f, w, inFlight) == (f.(dupacks := 3, ssthresh := half), half + 3 * f.mss)
  {
    WrapSmall(half);
    WrapSmall(half + 3 * f.mss);
  }

  lemma LaterDuplicate(g: Flow, w: Word32, inFlight: nat)
    requires 3 <= g.dupacks && g.dupacks + 1 < MODULUS && w + g.mss < MODULUS
    ensures Duplicated(g, w, inFlight) == (g.(dupacks := g.dupacks + 1), w + g.mss)
  {
    WrapSmall(g.dupacks + 1);
    WrapSmall(w + g.mss);
  }

  lemma {:induction false} RecoveryInflates(f: Flow, cwnd: Word32, inFlight: nat, k: nat, half: nat)
    requires f.dupacks == 2 && half == (if inFlight < 4 * f.mss then 2 * f.mss else inFlight / 2)
    requires half + (k + 3) * f.mss < MODULUS && k + 3 < MODULUS
    ensures AfterDuplicates(f, cwnd, inFlight, k) == (f.(dupacks := k + 3, ssthresh := half), half + (k + 3) * f.mss)
    decreases k
  {
    hide Duplicated;
    if k == 0 {
      ThirdDuplicate(f, cwnd, inFlight, half);
    } else {
      assert (k + 3) * f.mss == (k - 1 + 3) * f.mss + f.mss;
      RecoveryInflates(f, cwnd, inFlight, k - 1, half);
      LaterDuplicate(f.(dupacks := k + 2, ssthresh := half), half + (k - 1 + 3) * f.mss, inFlight);
    }
  }

  /**
   * Fast recovery, section 3.2 of RFC 5681: each segment the duplicates show to have left the network may be replaced
   * by another, and the acknowledgment that ends it leaves half of what was in flight, but at least two segments.
   */
  lemma RecoveryHalves(f: Flow, cwnd: Word32, inFlight: nat, k: nat, half: nat, dbytes: nat)
    requires f.dupacks == 2 && half == (if inFlight < 4 * f.mss then 2 * f.mss else inFlight / 2)
    requires half + (k + 3) * f.mss < MODULUS && k + 3 < MODULUS
    ensures var (g, w) := AfterDuplicates(f, cwnd, inFlight, k);
      w == half + (k + 3) * f.mss && GrownWindow(w, g.ssthresh, g.dupacks, dbytes, f.mss) == half
  {
    hide AfterDuplicates;
    RecoveryInflates(f, cwnd, inFlight, k, half);
  }
}
