/** Reassembly undoes fragmentation, in any order of arrival and amid other traffic. */
module ReassemblyTheorems {
  import opened SeqSpace
  import opened Checksum
  import opened Ipv4
  import opened Ranges
  import opened ReassemblySpec
  import opened Fragmentation
  import opened Reassembly

  // ---------------------------------------------------------------- the pieces of a payload

  /** A payload cut into fragments of `c` bytes. */
  datatype Split = Split(key: Key, payload: seq<byte>, c: nat, fs: seq<Fragment>) {
    predicate Valid() {
      && c > 0 && c % 8 == 0 && |payload| <= MAX_PAYLOAD && Splits(|payload|, c, |fs|)
      && forall k {:trigger fs[k]} :: 0 <= k < |fs| ==> IsPiece(k)
    }

    predicate IsPiece(k: nat)
      requires k < |fs|
    {
      var f := fs[k];
      && f.key == key && SoundHeader(f.hdr) && f.off == k * c && f.End() == Min(k * c + c, |payload|)
      && k * c <= |payload| && f.data == payload[k * c..f.End()] && (f.mf <==> k < |fs| - 1)
    }

    lemma Starts(k: nat)
      requires Valid() && k < |fs|
      ensures fs[k].off == k * c < |payload|
      ensures fs[k].End() == if k < |fs| - 1 then k * c + c else |payload|
    {
      PieceStarts(|payload|, c, |fs|, k);
    }

    lemma Proper(k: nat)
      requires Valid() && k < |fs|
      ensures fs[k].Proper() && fs[k].End() <= |payload| <= MAX_PAYLOAD && fs[k].key == key && SoundHeader(fs[k].hdr)
    {
      Starts(k);
    }

    lemma Ordered(i: nat, j: nat)
      requires Valid() && i < j < |fs|
      ensures fs[i].End() <= fs[j].off
    {
      Starts(i);
      Starts(j);
      Times(i + 1, j, c);
      Times(i, i, c);
    }

    /** The piece that holds a byte. */
    lemma Holder(x: nat) returns (k: nat)
      requires Valid() && x < |payload|
      ensures k < |fs| && fs[k].Holds(x)
    {
      k := 0;
      while k * c + c <= x
        invariant k < |fs| && k * c <= x
        decreases x - k * c
      {
        Starts(k);
        Times(k, k + 1, c);
        k := k + 1;
      }
      Starts(k);
    }

    lemma HolderUnique(i: nat, j: nat, x: int)
      requires Valid() && i < |fs| && j < |fs| && fs[i].Holds(x) && fs[j].Holds(x)
      ensures i == j
    {
      if i < j {
        Ordered(i, j);
      } else if j < i {
        Ordered(j, i);
      }
    }
  }

  // ---------------------------------------------------------------- orders of arrival

  predicate Injective<T(==)>(order: seq<T>) {
    forall i, j :: 0 <= i < j < |order| ==> order[i] != order[j]
  }

  /** `order` lists every index below `n` once. */
  predicate IsOrder(order: seq<nat>, n: nat) {
    |order| == n && Injective(order) && forall i :: 0 <= i < n ==> order[i] < n
  }

  ghost function Below(n: nat): (s: set<nat>)
    ensures |s| == n && forall k: nat :: k in s <==> k < n
  {
    if n == 0 then {} else Below(n - 1) + {n - 1}
  }

  ghost function Elements<T(!new)>(order: seq<T>): (s: set<T>)
    ensures |s| <= |order| && forall k :: k in s <==> k in order
  {
    if order == [] then {}
    else
      var rest := order[..|order| - 1];
      assert order == rest + [order[|order| - 1]];
      Elements(rest) + {order[|order| - 1]}
  }

  lemma {:induction false} ElementsCount<T(!new)>(order: seq<T>)
    requires Injective(order)
    ensures |Elements(order)| == |order|
  {
    if order != [] {
      ElementsCount(order[..|order| - 1]);
    }
  }

  /** A full order misses no index. */
  lemma OrderIsOnto(order: seq<nat>, n: nat, k: nat)
    requires IsOrder(order, n) && k < n
    ensures k in order
  {
    ElementsCount(order);
    var all, seen := Below(n), Elements(order);
    if k !in seen {
      assert seen <= all - {k};
      Smaller(seen, all - {k});
    }
  }

  lemma {:induction false} Smaller<T>(a: set<T>, b: set<T>)
    requires a <= b
    ensures |a| <= |b|
    decreases a
  {
    if a != {} {
      var x :| x in a;
      Smaller(a - {x}, b - {x});
    }
  }

  /** Too short an order misses some index. */
  lemma ShortOrderMisses(order: seq<nat>, n: nat)
    requires |order| < n
    ensures exists k: nat :: k < n && k !in order
  {
    var all, seen := Below(n), Elements(order);
    if all <= seen {
      Smaller(all, seen);
    }
    var k :| k in all && k !in seen;
  }

  // ---------------------------------------------------------------- a context part way through

  /** Context `c` has accepted exactly the first `m` arrivals. */
  ghost predicate Progress(s: Split, order: seq<nat>, c: Context, m: nat) {
    && c.live && ContextInv(c) && |c.payload| == MAX_PAYLOAD && c.key == s.key
    && m <= |order| && |c.log| == m && forall j :: 0 <= j < m ==> order[j] < |s.fs| && c.log[j] == s.fs[order[j]]
  }

  /** A range of such a context starts at a piece it holds, and reaches at least to that piece's end. */
  lemma RangeStart(s: Split, order: seq<nat>, c: Context, m: nat, i: nat) returns (k: nat)
    requires s.Valid() && Progress(s, order, c, m) && i < |c.ranges|
    ensures k < |s.fs| && c.ranges[i].start == s.fs[k].off && s.fs[k].End() <= c.ranges[i].end
  {
    hide LogInv, BytesInv, FirstInv, TotalInv, SoundHeader;
    var start, end := c.ranges[i].start, c.ranges[i].end;
    assert Covered(c.ranges, start);
    var j :| 0 <= j < |c.log| && c.log[j].Holds(start);
    k := order[j];
    var f := c.log[j];
    assert f.off < start ==> f.Holds(start - 1) && Written(c.log, start - 1) && Covered(c.ranges, start - 1);
    NotCovered(c.ranges, i);
    assert end < f.End() ==> f.Holds(end) && Written(c.log, end) && Covered(c.ranges, end);
  }

  lemma NotCovered(ranges: seq<Range>, i: nat)
    requires Canonical(ranges) && i < |ranges|
    ensures !Covered(ranges, ranges[i].start - 1) && !Covered(ranges, ranges[i].end)
  {
  }

  lemma RangesCanonical(c: Context)
    requires c.live && ContextInv(c)
    ensures Canonical(c.ranges)
  {
  }

  /** Between two ranges at least one whole piece is missing. */
  lemma {:induction false} RangesSpread(s: Split, order: seq<nat>, c: Context, m: nat, i: nat) returns (k: nat)
    requires s.Valid() && Progress(s, order, c, m) && i < |c.ranges|
    ensures 2 * i <= k < |s.fs| && c.ranges[i].start == s.fs[k].off && s.fs[k].End() <= c.ranges[i].end
    decreases i
  {
    hide ContextInv, Split.Valid;
    k := RangeStart(s, order, c, m, i);
    if i > 0 {
      var a := RangesSpread(s, order, c, m, i - 1);
      RangesCanonical(c);
      Adjacent(s, a, k);
    }
  }

  lemma Adjacent(s: Split, a: nat, k: nat)
    requires s.Valid() && a < |s.fs| && k < |s.fs| && s.fs[a].End() < s.fs[k].off
    ensures a + 2 <= k
  {
    hide Split.Valid, Split.IsPiece;
    s.Starts(a);
    s.Starts(k);
    if k < a + 2 {
      Times(k, a + 1, s.c);
      Times(a, a, s.c);
    }
  }

  /** With at most 62 pieces the range list never fills up. */
  lemma FewRanges(s: Split, order: seq<nat>, c: Context, m: nat)
    requires s.Valid() && |s.fs| <= 62 && Progress(s, order, c, m)
    ensures |c.ranges| < MAX_RANGES
  {
    hide ContextInv, Split.Valid;
    if |c.ranges| > 0 {
      var k := RangesSpread(s, order, c, m, |c.ranges| - 1);
    }
  }

  /** The total is unknown or right. */
  lemma TotalIsLength(s: Split, order: seq<nat>, c: Context, m: nat)
    requires s.Valid() && Progress(s, order, c, m)
    ensures c.total == -1 || c.total == |s.payload|
  {
    hide LogInv, RangesInv, BytesInv, FirstInv, SoundHeader;
    if c.total != -1 {
      var i :| 0 <= i < |c.log| && !c.log[i].mf && c.log[i].End() == c.total;
      s.Starts(order[i]);
    }
  }

  /** A piece that has not come yet is let in exactly when the range list has room. */
  lemma NoObjection(s: Split, order: seq<nat>, c: Context, m: nat)
    requires s.Valid() && Progress(s, order, c, m)
    requires m < |order| && Injective(order) && order[m] < |s.fs|
    ensures Objection(c, s.fs[order[m]]) == if |c.ranges| < MAX_RANGES then Parked else Overlap
  {
    hide LogInv, RangesInv, BytesInv, FirstInv, TotalInv, SoundHeader, Clear, Split.Valid, Split.IsPiece;
    var f := s.fs[order[m]];
    TotalIsLength(s, order, c, m);
    s.Proper(order[m]);
    LastEnds(s, order[m]);
    forall i | 0 <= i < |c.log|
      ensures Disjoint(c.log[i], f)
    {
      if order[i] < order[m] {
        s.Ordered(order[i], order[m]);
      } else {
        s.Ordered(order[m], order[i]);
      }
    }
    ClearIsDisjoint(c.ranges, c.log, c.key, f);
  }

  lemma LastEnds(s: Split, k: nat)
    requires s.Valid() && k < |s.fs|
    ensures !s.fs[k].mf ==> s.fs[k].End() == |s.payload|
  {
    s.Starts(k);
  }

  /** The step that takes it in. */
  lemma Advance(s: Split, order: seq<nat>, c: Context, m: nat, c': Context, out: Outcome) returns (d: Context)
    requires s.Valid() && Progress(s, order, c, m) && |c.ranges| < MAX_RANGES
    requires m < |order| && Injective(order) && order[m] < |s.fs| && Receives(c, s.fs[order[m]], c', out)
    ensures Progress(s, order, d, m + 1) && After(d, c', out) && d.deadline == c.deadline
    ensures s.fs[order[m]].End() <= MAX_PAYLOAD && Stored(c, s.fs[order[m]], d)
  {
    hide ContextInv, SoundHeader, IsInsertion, Objection, After, Split.Valid, Split.IsPiece;
    var f := s.fs[order[m]];
    NoObjection(s, order, c, m);
    s.Proper(order[m]);
    d :| Stored(c, f, d) && After(d, c', out);
    StoredKeepsInv(c, f, d);
  }

  // ---------------------------------------------------------------- completion

  lemma AllWritten(s: Split, order: seq<nat>, d: Context, x: int)
    requires s.Valid() && IsOrder(order, |s.fs|) && Progress(s, order, d, |s.fs|)
    ensures Written(d.log, x) <==> 0 <= x < |s.payload|
  {
    hide ContextInv, SoundHeader, Split.Valid, Split.IsPiece;
    if Written(d.log, x) {
      var j :| 0 <= j < |d.log| && d.log[j].Holds(x);
      s.Proper(order[j]);
    }
    if 0 <= x < |s.payload| {
      var k := s.Holder(x);
      OrderIsOnto(order, |s.fs|, k);
      var j :| 0 <= j < |order| && order[j] == k;
      assert d.log[j].Holds(x);
    }
  }

  /** Once every piece has come, the context is complete. */
  lemma AllComplete(s: Split, order: seq<nat>, d: Context)
    requires s.Valid() && IsOrder(order, |s.fs|) && Progress(s, order, d, |s.fs|)
    ensures Complete(d) && d.total == |s.payload| && d.hdr == s.fs[0].hdr
  {
    hide LogInv, BytesInv, SoundHeader;
    var n := |s.fs|;
    OrderIsOnto(order, n, 0);
    OrderIsOnto(order, n, n - 1);
    var j0 :| 0 <= j0 < n && order[j0] == 0;
    var j1 :| 0 <= j1 < n && order[j1] == n - 1;
    s.Starts(0);
    s.Starts(n - 1);
    assert d.log[j0].off == 0 && !d.log[j1].mf;
    var full := [Range(0, |s.payload|)];
    forall x
      ensures Covered(d.ranges, x) <==> Covered(full, x)
    {
      AllWritten(s, order, d, x);
      assert full[0].start <= x < full[0].end <==> Covered(full, x);
    }
    CanonicalUnique(d.ranges, full);
  }

  /** And not before. */
  lemma SomeIncomplete(s: Split, order: seq<nat>, d: Context, m: nat)
    requires s.Valid() && Progress(s, order, d, m) && m < |s.fs|
    ensures !Complete(d)
  {
    hide LogInv, BytesInv, FirstInv, TotalInv, SoundHeader, Split.Valid, Split.IsPiece;
    if Complete(d) {
      TotalIsLength(s, order, d, m);
      ShortOrderMisses(order[..m], |s.fs|);
      var k: nat :| k < |s.fs| && k !in order[..m];
      s.Starts(k);
      s.Proper(k);
      var x := s.fs[k].off;
      assert d.ranges[0].start <= x < d.ranges[0].end && Covered(d.ranges, x);
      var j :| 0 <= j < |d.log| && d.log[j].Holds(x);
      assert order[..m][j] == order[j];
      s.HolderUnique(order[j], k, x);
    }
  }

  /** The bytes held are those of the payload. */
  lemma BytesRestored(s: Split, order: seq<nat>, d: Context)
    requires s.Valid() && IsOrder(order, |s.fs|) && Progress(s, order, d, |s.fs|)
    ensures d.payload[..|s.payload|] == s.payload
  {
    hide LogInv, RangesInv, FirstInv, TotalInv, SoundHeader;
    forall x | 0 <= x < |s.payload|
      ensures d.payload[x] == s.payload[x]
    {
      var k := s.Holder(x);
      OrderIsOnto(order, |s.fs|, k);
      var j :| 0 <= j < |order| && order[j] == k;
      var f := d.log[j];
      assert d.payload[f.off..f.End()][x - f.off] == f.data[x - f.off];
    }
  }

  /** What the arrival of piece number `m` of `order` must cause. */
  ghost predicate Expected(s: Split, m: nat, out: Outcome) {
    |s.fs| > 0 && |s.fs[0].hdr| >= HDR_MIN && |s.fs[0].hdr| + |s.payload| <= 0xffff &&
    out == if m == |s.fs| - 1 then Delivered(Rebuilt(s.fs[0].hdr, s.payload)) else Parked
  }

  /** While pieces are missing, an arrival is parked. */
  lemma Parks(s: Split, order: seq<nat>, c: Context, m: nat, c': Context, out: Outcome)
    requires s.Valid() && Progress(s, order, c, m) && |c.ranges| < MAX_RANGES && m + 1 < |s.fs|
    requires m < |order| && Injective(order) && order[m] < |s.fs| && Receives(c, s.fs[order[m]], c', out)
    ensures out == Parked && Progress(s, order, c', m + 1) && c'.deadline == c.deadline
  {
    hide ContextInv, IsInsertion, Rebuilt, Receives, Stored, Split.Valid, Split.IsPiece;
    var d := Advance(s, order, c, m, c', out);
    SomeIncomplete(s, order, d, m + 1);
  }

  /** One arrival in a context that has room for it. */
  lemma Arrives(s: Split, order: seq<nat>, c: Context, m: nat, c': Context, out: Outcome)
    requires s.Valid() && IsOrder(order, |s.fs|) && m < |s.fs| && Progress(s, order, c, m) && |c.ranges| < MAX_RANGES
    requires Receives(c, s.fs[order[m]], c', out)
    ensures Expected(s, m, out)
    ensures if m == |s.fs| - 1 then !c'.live else Progress(s, order, c', m + 1) && c'.deadline == c.deadline
  {
    hide ContextInv, IsInsertion, Rebuilt, Receives, Stored, Split.Valid, Split.IsPiece;
    s.Proper(0);
    if m == |s.fs| - 1 {
      var d := Advance(s, order, c, m, c', out);
      AllComplete(s, order, d);
      BytesRestored(s, order, d);
    } else {
      Parks(s, order, c, m, c', out);
    }
  }

  // ---------------------------------------------------------------- the round trip in one context

  /** `cs` is a context fed the pieces of `s` in the given order, with outcomes `outs`. */
  ghost predicate Fed(s: Split, order: seq<nat>, cs: seq<Context>, outs: seq<Outcome>) {
    && |cs| == |outs| + 1 && |outs| <= |order|
    && forall m :: 0 <= m < |outs| ==>
         order[m] < |s.fs| && |cs[m].payload| == MAX_PAYLOAD && Receives(cs[m], s.fs[order[m]], cs[m + 1], outs[m])
  }

  /**
   * The round trip: at most 62 fragments, fed to a new context in any order, are parked one after the
   * other, and the last to arrive, whichever it is, delivers the payload.
   */
  lemma {:induction false} RoundTrip(s: Split, order: seq<nat>, cs: seq<Context>, outs: seq<Outcome>, m: nat)
    requires s.Valid() && |s.fs| <= 62 && IsOrder(order, |s.fs|) && Fed(s, order, cs, outs) && |outs| == |s.fs|
    requires m < |s.fs| && Progress(s, order, cs[0], 0)
    ensures Progress(s, order, cs[m], m) && Expected(s, m, outs[m])
    decreases m
  {
    hide ContextInv, Receives, Rebuilt, Split.Valid;
    if m > 0 {
      RoundTrip(s, order, cs, outs, m - 1);
      FewRanges(s, order, cs[m - 1], m - 1);
      Arrives(s, order, cs[m - 1], m - 1, cs[m], outs[m - 1]);
    }
    FewRanges(s, order, cs[m], m);
    Arrives(s, order, cs[m], m, cs[m + 1], outs[m]);
  }

  // ---------------------------------------------------------------- more than 62 fragments

  /** The even pieces leave a hole after each of them, so none of their ranges coalesce. */
  function EvenRanges(s: Split, m: nat): (rs: seq<Range>)
    requires 2 * m <= |s.fs| + 1
    ensures |rs| == m && forall j :: 0 <= j < m ==> rs[j] == Range(s.fs[2 * j].off, s.fs[2 * j].End())
  {
    if m == 0 then []
    else EvenRanges(s, m - 1) + [Range(s.fs[2 * (m - 1)].off, s.fs[2 * (m - 1)].End())]
  }

  lemma EvenCanonical(s: Split, m: nat)
    requires s.Valid() && 2 * m <= |s.fs| + 1
    ensures Canonical(EvenRanges(s, m))
  {
    hide Split.Valid, Split.IsPiece;
    var rs := EvenRanges(s, m);
    forall i | 0 <= i < m
      ensures rs[i].start < rs[i].end
    {
      s.Proper(2 * i);
    }
    forall i, j | 0 <= i < j < m
      ensures rs[i].end < rs[j].start
    {
      s.Ordered(2 * i, 2 * i + 1);
      s.Proper(2 * i + 1);
      s.Ordered(2 * i + 1, 2 * j);
    }
  }

  /** `m` even pieces make `m` ranges. */
  lemma EvensApart(s: Split, order: seq<nat>, c: Context, m: nat)
    requires s.Valid() && Progress(s, order, c, m) && 2 * m <= |s.fs| + 1
    requires forall j :: 0 <= j < m ==> order[j] == 2 * j
    ensures |c.ranges| == m
  {
    hide LogInv, BytesInv, FirstInv, TotalInv, SoundHeader, Split.Valid, Split.IsPiece;
    var rs := EvenRanges(s, m);
    EvenCanonical(s, m);
    forall x
      ensures Covered(rs, x) <==> Covered(c.ranges, x)
    {
      if Covered(rs, x) {
        var j :| 0 <= j < |rs| && rs[j].start <= x < rs[j].end;
        assert c.log[j].Holds(x) && Written(c.log, x);
      }
      if Covered(c.ranges, x) {
        var j :| 0 <= j < |c.log| && c.log[j].Holds(x);
        assert rs[j].start <= x < rs[j].end;
      }
    }
    CanonicalUnique(rs, c.ranges);
  }

  /**
   * 62 is exact: a datagram of 63 or more fragments whose even ones arrive first fills the range list,
   * and the next arrival, whichever it is, drops the whole datagram.
   */
  lemma {:induction false} TooManyFragments(s: Split, order: seq<nat>, cs: seq<Context>, outs: seq<Outcome>, m: nat)
    requires s.Valid() && |s.fs| >= 63 && Injective(order) && Fed(s, order, cs, outs) && |outs| == 33 && m <= 32
    requires (forall j :: 0 <= j < 32 ==> order[j] == 2 * j) && Progress(s, order, cs[0], 0)
    ensures Progress(s, order, cs[m], m)
    ensures if m < 32 then outs[m] == Parked else outs[m] == Overlap && !cs[m + 1].live
    decreases m
  {
    hide ContextInv, Rebuilt, Split.Valid, Split.IsPiece, Stored, Objection;
    if m > 0 {
      TooManyFragments(s, order, cs, outs, m - 1);
      EvensApart(s, order, cs[m - 1], m - 1);
      Parks(s, order, cs[m - 1], m - 1, cs[m], outs[m - 1]);
    }
    EvensApart(s, order, cs[m], m);
    NoObjection(s, order, cs[m], m);
    assert Receives(cs[m], s.fs[order[m]], cs[m + 1], outs[m]);
    if m < 32 {
      Parks(s, order, cs[m], m, cs[m + 1], outs[m]);
    }
  }
}
