/**
 * The law behind `tcp_rx_payload`: segments that do not overlap may arrive in any order and any number of times,
 * and the receiver always stands at the first byte that none of them has brought.
 */
module TcpArrival {
  import opened SeqSpace
  import opened ByteRings
  import opened TcpSpec

  ghost predicate Covered(segs: seq<Parked>, q: int) { exists x :: x in segs && x.pos <= q < x.End() }

  /** The first position from `from` on that no segment has brought. */
  ghost predicate FirstGap(segs: seq<Parked>, from: int, q: int) {
    from <= q && !Covered(segs, q) && forall p :: from <= p < q ==> Covered(segs, p)
  }

  /** The segments that have come ahead of a gap. */
  ghost function Ahead(segs: seq<Parked>, from: int): set<Parked> {
    set x | x in segs && exists q :: from <= q < x.pos && !Covered(segs, q)
  }

  /** The receiver after the text of `segs`, in that order. */
  function Feed(r: Rx, segs: seq<Parked>): Rx {
    if segs == [] then r
    else
      var last := segs[|segs| - 1];
      Receive(Feed(r, segs[..|segs| - 1]), last.pos, last.data)
  }

  /** Segments inside the window; any two are the same or do not overlap. */
  predicate Fits(r: Rx, segs: seq<Parked>) {
    && (forall x :: x in segs ==> x.data != [] && r.RcvNxt() <= x.pos && x.End() <= r.RightEdge())
    && (forall x, y :: x in segs && y in segs ==> x == y || !Overlap(x, y))
  }

  /** At no time are more than 16 of them ahead of a gap. */
  ghost predicate FewAhead(r: Rx, segs: seq<Parked>) {
    forall k :: 0 <= k <= |segs| ==> |Ahead(segs[..k], r.RcvNxt())| <= OOO_MAX
  }

  // ---------------------------------------------------------------- one segment

  /** What has become of `r` when `segs` have come: it is at the first gap, and what lies beyond is parked. */
  ghost predicate Fed(r: Rx, segs: seq<Parked>, m: Rx) {
    && ReceiveInv(m) && !m.eof && m.RightEdge() == r.RightEdge() && FirstGap(segs, r.RcvNxt(), m.RcvNxt())
    && forall x :: x in m.ooo <==> x in segs && x.pos > m.RcvNxt()
  }

  /** A segment lies wholly below the gap or wholly above it. */
  lemma BelowOrAbove(segs: seq<Parked>, q: int, x: Parked)
    requires !Covered(segs, q) && x in segs
    ensures x.End() <= q || q < x.pos
  {
  }

  lemma {:induction false} DrainCovers(rcvd: seq<byte>, ooo: seq<Parked>, q: int)
    requires 1 + |rcvd| <= q < 1 + |Drain(rcvd, ooo).0|
    ensures Covered(ooo, q)
    decreases |ooo|
  {
    var next := 1 + |rcvd|;
    if ooo != [] && ooo[0].pos <= next {
      var rest, rcvd' := ooo[1..], Taken(rcvd, ooo[0]);
      if q < 1 + |rcvd'| {
        assert ooo[0] in ooo;
      } else {
        DrainCovers(rcvd', rest, q);
        var x :| x in rest && x.pos <= q < x.End();
        assert x in ooo;
      }
    }
  }

  lemma {:induction false} OrderlyDistinct(ooo: seq<Parked>, next: int, edge: int)
    requires Orderly(ooo, next, edge)
    ensures |set x | x in ooo| == |ooo|
    decreases |ooo|
  {
    if ooo == [] {
    } else {
      var rest := ooo[1..];
      OrderlyDistinct(rest, next, edge);
      assert (set x | x in ooo) == {ooo[0]} + (set x | x in rest);
      assert ooo[0] !in rest;
    }
  }

  lemma WholeSegment(r: Rx, s: Parked)
    requires r.RcvNxt() <= s.pos && s.End() <= r.RightEdge() && s.data != []
    ensures Trim(r.RcvNxt(), r.RightEdge(), s.pos, s.data) == s
  {
    var n := |s.data|;
    assert Max(r.RcvNxt(), s.pos) == s.pos && Min(r.RightEdge(), s.pos + n) == s.pos + n;
    assert s.data[0..n] == s.data;
  }

  /** It comes again: nothing changes. */
  lemma FeedAgain(r: Rx, segs: seq<Parked>, m: Rx, s: Parked)
    requires Fed(r, segs, m) && Fits(r, segs) && s in segs
    ensures Receive(m, s.pos, s.data) == m
  {
    hide Orderly, Drain, InsertParked;
    BelowOrAbove(segs, m.RcvNxt(), s);
    if s.pos > m.RcvNxt() {
      WholeSegment(m, s);
      assert s in m.ooo && Overlap(s, s);
    }
  }

  /** A new segment starts at the gap or above it. */
  lemma NotBelow(r: Rx, segs: seq<Parked>, m: Rx, s: Parked)
    requires Fed(r, segs, m) && Fits(r, segs + [s]) && s !in segs
    ensures m.RcvNxt() <= s.pos
  {
    hide ReceiveInv;
    assert s in segs + [s];
    forall x | x in segs ensures !(x.pos <= s.pos < x.End()) { assert x in segs + [s]; }
    assert !Covered(segs, s.pos);
  }

  /** It fills the gap: the receiver moves on to the next one. */
  lemma FeedGap(r: Rx, segs: seq<Parked>, m: Rx, s: Parked)
    requires Fed(r, segs, m) && Fits(r, segs + [s]) && s !in segs && s.pos == m.RcvNxt()
    ensures Fed(r, segs + [s], Receive(m, s.pos, s.data))
  {
    hide Drain, Trim, Covered;
    var segs', nx, edge := segs + [s], m.RcvNxt(), m.RightEdge();
    assert s in segs';
    WholeSegment(m, s);
    ReceiveKeepsInv(m, s.pos, s.data);
    var (rcvd, ooo) := Drain(m.rcvd + s.data, m.ooo);
    DrainReachesHole(m.rcvd + s.data, m.ooo, edge);
    DrainConsumes(m.rcvd + s.data, m.ooo);
    var nx' := 1 + |rcvd|;
    var gone := m.ooo[..|m.ooo| - |ooo|];
    forall x | x in segs'
      ensures x.End() <= nx' || (x in ooo && nx' < x.pos)
    {
      if x in segs {
        BelowOrAbove(segs, nx, x);
        assert x.pos > nx ==> x in gone + ooo;
      }
    }
    GapMoves(segs, s, r.RcvNxt(), nx, m.ooo, m.rcvd + s.data);
    NotCovered(segs', nx');
    forall x
      ensures x in ooo <==> x in segs' && x.pos > nx'
    {
      assert x in ooo ==> x in gone + ooo;
    }
  }

  lemma NotCovered(segs: seq<Parked>, q: int)
    requires forall x :: x in segs ==> x.End() <= q || q < x.pos
    ensures !Covered(segs, q)
  {
  }

  lemma GapMoves(segs: seq<Parked>, s: Parked, from: int, nx: int, ooo: seq<Parked>, rcvd: seq<byte>)
    requires FirstGap(segs, from, nx) && s.pos == nx && 1 + |rcvd| == s.End() && forall x :: x in ooo ==> x in segs
    ensures forall p :: from <= p < 1 + |Drain(rcvd, ooo).0| ==> Covered(segs + [s], p)
  {
    hide Drain;
    forall p | from <= p < 1 + |Drain(rcvd, ooo).0|
      ensures Covered(segs + [s], p)
    {
      if nx <= p < s.End() {
        assert s in segs + [s];
      } else {
        if p >= s.End() {
          DrainCovers(rcvd, ooo, p);
          var y :| y in ooo && y.pos <= p < y.End();
          assert y in segs;
        }
        assert Covered(segs, p);
        var x :| x in segs && x.pos <= p < x.End();
        assert x in segs + [s];
      }
    }
  }

  /** It leaves a gap below: the receiver stays, and keeps it. */
  lemma FeedAhead(r: Rx, segs: seq<Parked>, m: Rx, s: Parked)
    requires Fed(r, segs, m) && Fits(r, segs + [s]) && s !in segs && s.pos > m.RcvNxt()
    requires |Ahead(segs + [s], r.RcvNxt())| <= OOO_MAX
    ensures Fed(r, segs + [s], Receive(m, s.pos, s.data))
  {
    hide Receive, Orderly, Covered, Ahead;
    assert s in segs + [s];
    GapStays(segs, s, r.RcvNxt(), m.RcvNxt());
    RoomLeft(segs, s, r.RcvNxt(), m);
    ReceiveKeepsInv(m, s.pos, s.data);
    forall x | x in m.ooo ensures !Overlap(x, s) { assert x in segs + [s]; }
    assert s.data[..|s.data|] == s.data;
    AheadIsKept(m, s.pos, s.data);
  }

  lemma GapStays(segs: seq<Parked>, s: Parked, from: int, nx: int)
    requires FirstGap(segs, from, nx) && nx < s.pos
    ensures FirstGap(segs + [s], from, nx)
  {
    forall p | from <= p < nx ensures Covered(segs + [s], p) {
      assert Covered(segs, p);
      var x :| x in segs && x.pos <= p < x.End();
      assert x in segs + [s];
    }
  }

  lemma RoomLeft(segs: seq<Parked>, s: Parked, from: int, m: Rx)
    requires ReceiveInv(m) && !m.eof && s !in segs && s.pos > m.RcvNxt() && FirstGap(segs + [s], from, m.RcvNxt())
    requires (forall x :: x in m.ooo ==> x in segs && x.pos > m.RcvNxt()) && |Ahead(segs + [s], from)| <= OOO_MAX
    ensures |m.ooo| < OOO_MAX
  {
    hide Covered, Orderly;
    var parked := set x | x in m.ooo;
    var ahead := Ahead(segs + [s], from);
    OrderlyDistinct(m.ooo, m.RcvNxt(), m.RightEdge());
    assert s in segs + [s];
    assert parked + {s} <= ahead;
    Smaller(parked + {s}, ahead);
    assert |parked + {s}| == |parked| + 1;
  }

  lemma {:induction false} Smaller<T>(a: set<T>, b: set<T>)
    requires a <= b
    ensures |a| <= |b|
  {
    assert b == a + (b - a);
  }

  // ---------------------------------------------------------------- any order

  lemma SubFits(r: Rx, segs: seq<Parked>, k: nat)
    requires Fits(r, segs) && k <= |segs|
    ensures Fits(r, segs[..k])
  {
  }

  lemma FeedOne(r: Rx, segs: seq<Parked>, m: Rx, s: Parked)
    requires Fed(r, segs, m) && Fits(r, segs + [s]) && Fits(r, segs) && |Ahead(segs + [s], r.RcvNxt())| <= OOO_MAX
    ensures Fed(r, segs + [s], Receive(m, s.pos, s.data))
  {
    hide Receive, Ahead, Fits;
    if s in segs {
      FeedAgain(r, segs, m, s);
      SameCover(r, segs, m, s);
    } else {
      NotBelow(r, segs, m, s);
      if s.pos == m.RcvNxt() {
        FeedGap(r, segs, m, s);
      } else {
        FeedAhead(r, segs, m, s);
      }
    }
  }

  lemma SameCover(r: Rx, segs: seq<Parked>, m: Rx, s: Parked)
    requires Fed(r, segs, m) && s in segs
    ensures Fed(r, segs + [s], m)
  {
    hide ReceiveInv;
    forall q ensures Covered(segs + [s], q) <==> Covered(segs, q) {
      assert forall x :: x in segs + [s] <==> x in segs;
    }
  }

  /**
   * Segments that do not overlap, inside the window, in any order and repeated at will: while no more than 16 are
   * ahead of a gap, RCV.NXT is the first position that none has brought, and exactly those beyond it are parked.
   */
  lemma {:induction false} AnyOrder(r: Rx, segs: seq<Parked>)
    requires ReceiveInv(r) && !r.eof && r.ooo == [] && Fits(r, segs) && FewAhead(r, segs)
    ensures Fed(r, segs, Feed(r, segs))
    decreases |segs|
  {
    hide Fits, Receive, Ahead, ReceiveInv;
    if segs == [] {
    } else {
      var n := |segs| - 1;
      SubFits(r, segs, n);
      assert forall k :: 0 <= k <= n ==> segs[..n][..k] == segs[..k];
      AnyOrder(r, segs[..n]);
      assert segs[..n] + [segs[n]] == segs == segs[..n + 1];
      FeedOne(r, segs[..n], Feed(r, segs[..n]), segs[n]);
    }
  }

  lemma {:induction false} FeedAgrees(r: Rx, segs: seq<Parked>, stream: seq<byte>)
    requires ReceiveInv(r) && !r.eof && Agrees(r.rcvd, r.ooo, stream) && forall x :: x in segs ==> Slice(x, stream)
    ensures var m := Feed(r, segs); ReceiveInv(m) && !m.eof && Agrees(m.rcvd, m.ooo, stream)
    decreases |segs|
  {
    hide Receive, ReceiveInv, Agrees, Slice;
    if segs != [] {
      var n, last := |segs| - 1, segs[|segs| - 1];
      FeedAgrees(r, segs[..n], stream);
      ReceiveKeepsInv(Feed(r, segs[..n]), last.pos, last.data);
      ReceiveAgrees(Feed(r, segs[..n]), last.pos, last.data, stream);
    }
  }

  lemma HasMember(ooo: seq<Parked>)
    ensures ooo == [] || exists x :: x in ooo
  {
    if ooo != [] {
      assert ooo[0] in ooo;
    }
  }

  /** So pieces of a stream that together cover it up to `end` bring the receiver there, with those very bytes. */
  lemma CoverIsReceived(r: Rx, segs: seq<Parked>, stream: seq<byte>, end: int)
    requires ReceiveInv(r) && !r.eof && r.ooo == [] && Fits(r, segs) && FewAhead(r, segs)
    requires r.rcvd <= stream && (forall x :: x in segs ==> Slice(x, stream) && x.End() <= end) && r.RcvNxt() <= end
    requires forall q :: r.RcvNxt() <= q < end ==> Covered(segs, q)
    ensures Feed(r, segs).RcvNxt() == end && end - 1 <= |stream| && Feed(r, segs).rcvd == stream[..end - 1]
    ensures Feed(r, segs).ooo == []
  {
    hide Fits, FewAhead, Feed, ReceiveInv;
    AnyOrder(r, segs);
    FeedAgrees(r, segs, stream);
    var m := Feed(r, segs);
    NotCovered(segs, end);
    HasMember(m.ooo);
  }
}
