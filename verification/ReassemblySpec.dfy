/** Reassembly of fragments (src/ipv4/ip_reass.c) on values: contexts, what a fragment does to one, and what is kept. */
module ReassemblySpec {
  import opened SeqSpace
  import opened Checksum
  import opened Ipv4
  import opened Ranges

  const CONTEXTS: nat := 8
  const TIMEOUT_MS: nat := 15000
  const MAX_PAYLOAD: nat := 4000

  /** The reassembly key of section 3.2 of RFC 791. */
  datatype Key = Key(src: Word32, dst: Word32, id: Word16, proto: byte)

  datatype Fragment = Fragment(key: Key, hdr: seq<byte>, off: nat, mf: bool, data: seq<byte>) {
    function End(): nat { off + |data| }

    predicate Holds(x: int) { off <= x < End() }

    /** Not empty, and a multiple of 8 bytes unless it is the last. */
    predicate Proper() { |data| > 0 && (mf ==> |data| % 8 == 0) }
  }

  predicate Disjoint(f: Fragment, g: Fragment) { f.End() <= g.off || g.End() <= f.off }

  /** The fragment a packet carries. */
  function Parse(p: seq<byte>): Fragment
    requires |p| >= HDR_MIN && HDR_MIN <= HdrLen(p) <= |p|
  {
    Fragment(Key(Src(p), Dst(p), Id(p), Proto(p)), p[..HdrLen(p)],
             Frag(p) % (FRAG_OFFMASK + 1) * 8, Frag(p) / FRAG_MF % 2 == 1, p[HdrLen(p)..])
  }

  /** A header as `ip_input` leaves it. */
  predicate SoundHeader(h: seq<byte>) {
    |h| >= HDR_MIN && Version(h) == 4 && HdrLen(h) == |h| && !BadSource(Src(h))
  }

  lemma AcceptedIsSound(p: seq<byte>)
    requires CheckHeader(p) == Accepted(p)
    ensures |p| >= HDR_MIN && HDR_MIN <= HdrLen(p) <= |p| && SoundHeader(Parse(p).hdr)
  {
    hide Fold, WordSum, BadSource;
  }

  // ---------------------------------------------------------------- contexts

  /** One context of the table, with the fragments accepted into it so far. */
  datatype Context = Context(
    live: bool,
    key: Key,
    dev: nat,
    deadline: nat,
    first: bool,
    total: int,
    ranges: seq<Range>,
    hdr: seq<byte>,
    payload: seq<byte>,
    log: seq<Fragment>)

  const NO_KEY := Key(0, 0, 0, 0)

  /** A context cleared by `ctx_release`. */
  function Unused(payload: seq<byte>): Context {
    Context(false, NO_KEY, 0, 0, false, 0, [], [], payload, [])
  }

  /** A context taken for a new datagram. */
  function Opened(key: Key, dev: nat, now: nat, payload: seq<byte>): Context {
    Context(true, key, dev, now + TIMEOUT_MS, false, -1, [], [], payload, [])
  }

  predicate LogInv(log: seq<Fragment>, key: Key) {
    && (forall i :: 0 <= i < |log| ==>
      log[i].Proper() && log[i].key == key && log[i].End() <= MAX_PAYLOAD && SoundHeader(log[i].hdr))
    && (forall i, j :: 0 <= i < j < |log| ==> Disjoint(log[i], log[j]))
  }

  /** Some accepted fragment holds byte `x`. */
  ghost predicate Written(log: seq<Fragment>, x: int) {
    exists i :: 0 <= i < |log| && log[i].Holds(x)
  }

  ghost predicate RangesInv(ranges: seq<Range>, log: seq<Fragment>) {
    Canonical(ranges) && |ranges| <= MAX_RANGES && forall x :: Covered(ranges, x) <==> Written(log, x)
  }

  /** Every stored byte is the one of the fragment that holds it. */
  predicate BytesInv(payload: seq<byte>, log: seq<Fragment>) {
    |payload| == MAX_PAYLOAD &&
    forall i :: 0 <= i < |log| ==> log[i].End() <= MAX_PAYLOAD && payload[log[i].off..log[i].End()] == log[i].data
  }

  predicate FirstInv(first: bool, hdr: seq<byte>, log: seq<Fragment>) {
    && (first ==> exists i :: 0 <= i < |log| && log[i].off == 0)
    && (forall i :: 0 <= i < |log| && log[i].off == 0 ==> first && hdr == log[i].hdr)
  }

  predicate TotalInv(total: int, log: seq<Fragment>) {
    && (total != -1 ==> exists i :: 0 <= i < |log| && !log[i].mf && log[i].End() == total)
    && (forall i :: 0 <= i < |log| && !log[i].mf ==> log[i].End() == total)
  }

  /** What every context keeps. */
  ghost predicate ContextInv(c: Context) {
    if !c.live then |c.payload| == MAX_PAYLOAD && c == Unused(c.payload)
    else
      && LogInv(c.log, c.key) && RangesInv(c.ranges, c.log) && BytesInv(c.payload, c.log)
      && FirstInv(c.first, c.hdr, c.log) && TotalInv(c.total, c.log)
  }

  // ---------------------------------------------------------------- one fragment

  datatype Outcome = BadFragment | TooBig | Conflict | Overlap | Parked | Delivered(packet: seq<byte>)

  function TotalAfter(c: Context, f: Fragment): int { if f.mf then c.total else f.End() }

  /** Why a fragment kills its context; `Parked` if it does not. */
  function Objection(c: Context, f: Fragment): Outcome {
    if f.End() > MAX_PAYLOAD then TooBig
    else if !f.mf && c.total >= 0 && c.total != f.End() then Conflict
    else if TotalAfter(c, f) >= 0 && f.End() > TotalAfter(c, f) then Conflict
    else if !Clear(c.ranges, f.off, f.End()) || |c.ranges| >= MAX_RANGES then Overlap
    else Parked
  }

  /** `d` is `c` with `f` stored. */
  ghost predicate Stored(c: Context, f: Fragment, d: Context)
    requires f.End() <= |c.payload|
  {
    && IsInsertion(c.ranges, f.off, f.End(), d.ranges)
    && |d.ranges| <= |c.ranges| + 1
    && d == c.(total := TotalAfter(c, f), ranges := d.ranges, log := c.log + [f],
               payload := c.payload[..f.off] + f.data + c.payload[f.End()..],
               first := c.first || f.off == 0, hdr := if f.off == 0 then f.hdr else c.hdr)
  }

  predicate Complete(c: Context) {
    c.first && c.total >= 0 && |c.ranges| == 1 && c.ranges[0] == Range(0, c.total)
  }

  /** The header of a rebuilt datagram. */
  function NewHeader(hdr: seq<byte>, total: Word16): (h: seq<byte>)
    requires |hdr| >= HDR_MIN
    ensures |h| == |hdr|
  {
    var h := Put16(Put16(Put16(hdr, 2, total), 6, 0), 10, 0);
    Put16(h, 10, Fold(WordSum(h)))
  }

  /** The datagram built by `deliver_complete`. */
  function Rebuilt(hdr: seq<byte>, payload: seq<byte>): seq<byte>
    requires |hdr| >= HDR_MIN && |hdr| + |payload| <= 0xffff
  {
    NewHeader(hdr, |hdr| + |payload|) + payload
  }

  /** What `ip_reass_input` does to the context `c` of a proper fragment. */
  ghost predicate Receives(c: Context, f: Fragment, c': Context, out: Outcome)
    requires |c.payload| == MAX_PAYLOAD
  {
    var objection := Objection(c, f);
    if objection != Parked then out == objection && c' == Unused(c.payload)
    else
      exists d :: Stored(c, f, d) && After(d, c', out)
  }

  ghost predicate After(d: Context, c': Context, out: Outcome) {
    if Complete(d) then
      && |d.hdr| >= HDR_MIN && |d.hdr| + d.total <= 0xffff && d.total <= |d.payload|
      && c' == Unused(d.payload) && out == Delivered(Rebuilt(d.hdr, d.payload[..d.total]))
    else c' == d && out == Parked
  }

  // ---------------------------------------------------------------- storing keeps the invariant

  lemma WrittenMore(log: seq<Fragment>, f: Fragment, x: int)
    ensures Written(log + [f], x) <==> Written(log, x) || f.Holds(x)
  {
    var more := log + [f];
    if Written(log, x) {
      var i :| 0 <= i < |log| && log[i].Holds(x);
      assert more[i].Holds(x);
    }
    if f.Holds(x) {
      assert more[|log|].Holds(x);
    }
  }

  /** The range list admits a fragment exactly when it overlaps no accepted fragment. */
  lemma ClearIsDisjoint(ranges: seq<Range>, log: seq<Fragment>, key: Key, f: Fragment)
    requires LogInv(log, key) && RangesInv(ranges, log) && f.Proper()
    ensures Clear(ranges, f.off, f.End()) <==> forall i :: 0 <= i < |log| ==> Disjoint(log[i], f)
  {
    if Clear(ranges, f.off, f.End()) {
      forall i | 0 <= i < |log|
        ensures Disjoint(log[i], f)
      {
        var x := Max(log[i].off, f.off);
        assert log[i].Holds(x) ==> Written(log, x);
        assert Covered(ranges, x) ==> !f.Holds(x);
      }
    }
    if forall i :: 0 <= i < |log| ==> Disjoint(log[i], f) {
      forall k | 0 <= k < |ranges|
        ensures ranges[k].end <= f.off || f.End() <= ranges[k].start
      {
        var x := Max(ranges[k].start, f.off);
        assert ranges[k].start <= x < ranges[k].end ==> Covered(ranges, x);
        assert Written(log, x) ==> !f.Holds(x);
      }
    }
  }

  lemma StoredRanges(c: Context, f: Fragment, d: Context)
    requires c.live && ContextInv(c) && Objection(c, f) == Parked && Stored(c, f, d)
    ensures RangesInv(d.ranges, d.log)
  {
    hide LogInv, BytesInv, FirstInv, TotalInv, Canonical, Clear, Covered, Written;
    forall x
      ensures Covered(d.ranges, x) <==> Written(d.log, x)
    {
      WrittenMore(c.log, f, x);
    }
  }

  lemma StoredBytes(c: Context, f: Fragment, d: Context)
    requires BytesInv(c.payload, c.log) && f.End() <= MAX_PAYLOAD
    requires forall i :: 0 <= i < |c.log| ==> Disjoint(c.log[i], f)
    requires d.log == c.log + [f] && d.payload == c.payload[..f.off] + f.data + c.payload[f.End()..]
    ensures BytesInv(d.payload, d.log)
  {
    forall i | 0 <= i < |d.log|
      ensures d.log[i].End() <= MAX_PAYLOAD && d.payload[d.log[i].off..d.log[i].End()] == d.log[i].data
    {
      if i < |c.log| {
        var g := c.log[i];
        assert d.payload[g.off..g.End()] == c.payload[g.off..g.End()];
      }
    }
  }

  lemma StoredFirst(c: Context, f: Fragment, d: Context)
    requires LogInv(d.log, c.key) && FirstInv(c.first, c.hdr, c.log) && d.log == c.log + [f]
    requires d.first == (c.first || f.off == 0) && d.hdr == if f.off == 0 then f.hdr else c.hdr
    ensures FirstInv(d.first, d.hdr, d.log)
  {
    if c.first {
      var i :| 0 <= i < |c.log| && c.log[i].off == 0;
      assert d.log[i].off == 0;
    }
    assert d.log[|c.log|] == f;
    forall i | 0 <= i < |d.log| && d.log[i].off == 0
      ensures d.first && d.hdr == d.log[i].hdr
    {
      if i < |c.log| {
        assert Disjoint(d.log[i], d.log[|c.log|]);
      }
    }
  }

  lemma StoredTotal(c: Context, f: Fragment, d: Context)
    requires LogInv(d.log, c.key) && TotalInv(c.total, c.log) && d.log == c.log + [f] && d.total == TotalAfter(c, f)
    requires Objection(c, f) == Parked
    ensures TotalInv(d.total, d.log)
  {
    hide Clear;
    if c.total != -1 {
      var i :| 0 <= i < |c.log| && !c.log[i].mf && c.log[i].End() == c.total;
      assert d.log[i] == c.log[i];
    }
    assert d.log[|c.log|] == f;
  }

  lemma StoredKeepsInv(c: Context, f: Fragment, d: Context)
    requires c.live && ContextInv(c) && f.Proper() && f.key == c.key && SoundHeader(f.hdr)
    requires Objection(c, f) == Parked && Stored(c, f, d)
    ensures d.live && ContextInv(d)
  {
    ClearIsDisjoint(c.ranges, c.log, c.key, f);
    StoredRanges(c, f, d);
    hide Clear, Covered, Written, Canonical, IsInsertion, RangesInv, BytesInv, SoundHeader, FirstInv, TotalInv;
    StoredBytes(c, f, d);
    assert LogInv(d.log, c.key);
    StoredFirst(c, f, d);
    StoredTotal(c, f, d);
  }

  /** No stored byte is overwritten: accepting a fragment changes no byte already covered. */
  lemma NeverOverwrites(c: Context, f: Fragment, d: Context, x: nat)
    requires c.live && ContextInv(c) && Objection(c, f) == Parked && Stored(c, f, d) && Covered(c.ranges, x)
    requires x < MAX_PAYLOAD
    ensures Covered(d.ranges, x) && d.payload[x] == c.payload[x]
  {
  }

  // ---------------------------------------------------------------- what is delivered

  /**
   * `packet` is put together from `log`: pairwise disjoint fragments of one datagram that hold each of
   * the `total` bytes once and no other, under the header of the one at offset 0; one of them is last.
   */
  ghost predicate Assembles(log: seq<Fragment>, key: Key, total: nat, packet: seq<byte>) {
    && LogInv(log, key) && total <= MAX_PAYLOAD
    && (forall x :: Written(log, x) <==> 0 <= x < total)
    && (exists last :: 0 <= last < |log| && !log[last].mf && log[last].End() == total)
    && exists i, payload: seq<byte> ::
      && 0 <= i < |log| && log[i].off == 0 && |payload| == total
      && Matches(payload, log) && packet == Rebuilt(log[i].hdr, payload)
  }

  /** Each fragment's bytes are where its offset says. */
  predicate Matches(payload: seq<byte>, log: seq<Fragment>) {
    forall i :: 0 <= i < |log| ==> log[i].End() <= |payload| && payload[log[i].off..log[i].End()] == log[i].data
  }

  lemma WithinTotal(ranges: seq<Range>, log: seq<Fragment>, key: Key, total: nat)
    requires LogInv(log, key) && RangesInv(ranges, log) && ranges == [Range(0, total)]
    ensures forall x :: Written(log, x) <==> 0 <= x < total
    ensures forall i :: 0 <= i < |log| ==> log[i].End() <= total
  {
    forall x
      ensures Written(log, x) <==> 0 <= x < total
    {
      assert Covered(ranges, x) <==> ranges[0].start <= x < ranges[0].end;
    }
    forall i | 0 <= i < |log|
      ensures log[i].End() <= total
    {
      assert log[i].Holds(log[i].End() - 1);
      assert Written(log, log[i].End() - 1);
    }
  }

  lemma MatchesTotal(payload: seq<byte>, log: seq<Fragment>, total: nat)
    requires BytesInv(payload, log) && total <= MAX_PAYLOAD && forall i :: 0 <= i < |log| ==> log[i].End() <= total
    ensures Matches(payload[..total], log)
  {
    forall i | 0 <= i < |log|
      ensures payload[..total][log[i].off..log[i].End()] == log[i].data
    {
      assert payload[..total][log[i].off..log[i].End()] == payload[log[i].off..log[i].End()];
    }
  }

  lemma FirstHeader(d: Context)
    requires d.live && ContextInv(d) && d.first
    ensures HDR_MIN <= |d.hdr| <= 60
    ensures exists i :: 0 <= i < |d.log| && d.log[i].off == 0 && d.hdr == d.log[i].hdr
  {
    hide RangesInv, BytesInv, TotalInv;
    var i :| 0 <= i < |d.log| && d.log[i].off == 0;
    assert SoundHeader(d.log[i].hdr);
  }

  /** A completed context can be delivered, and delivers a datagram assembled from its fragments. */
  lemma CompleteAssembles(d: Context)
    requires d.live && ContextInv(d) && Complete(d)
    ensures HDR_MIN <= |d.hdr| <= 60 && d.total <= MAX_PAYLOAD == |d.payload|
    ensures Assembles(d.log, d.key, d.total, Rebuilt(d.hdr, d.payload[..d.total]))
  {
    hide Rebuilt, Canonical, Covered, Written, Matches, SoundHeader, Disjoint, FirstInv;
    FirstHeader(d);
    WithinTotal(d.ranges, d.log, d.key, d.total);
    MatchesTotal(d.payload, d.log, d.total);
  }

  lemma NewHeaderFields(hdr: seq<byte>, total: Word16)
    requires |hdr| >= HDR_MIN
    ensures var h := NewHeader(hdr, total);
      && Version(h) == Version(hdr) && HdrLen(h) == HdrLen(hdr) && TotalLen(h) == total && Frag(h) == 0
      && Id(h) == Id(hdr) && Proto(h) == Proto(hdr) && Ttl(h) == Ttl(hdr) && Src(h) == Src(hdr) && Dst(h) == Dst(hdr)
      && Fold(WordSum(h)) == 0
  {
    var h := Put16(Put16(Put16(hdr, 2, total), 6, 0), 10, 0);
    FillVerifies(h, 10, 0);
    hide WordSum, Fold;
  }

  /** The rebuilt datagram passes every check of `ip_input`, is not a fragment, and keeps the header's fields. */
  lemma RebuiltIsAccepted(hdr: seq<byte>, payload: seq<byte>)
    requires SoundHeader(hdr) && |payload| <= MAX_PAYLOAD
    ensures var p := Rebuilt(hdr, payload);
      && CheckHeader(p) == Accepted(p) && HdrLen(p) == |hdr| && p[|hdr|..] == payload && Frag(p) == 0
      && Id(p) == Id(hdr) && Proto(p) == Proto(hdr) && Ttl(p) == Ttl(hdr) && Src(p) == Src(hdr) && Dst(p) == Dst(hdr)
  {
    hide WordSum, Fold, BadSource, NewHeader;
    NewHeaderFields(hdr, |hdr| + |payload|);
    var p := Rebuilt(hdr, payload);
    assert p[..|hdr|] == NewHeader(hdr, |hdr| + |payload|) && p[|hdr|..] == payload && p[..|p|] == p;
  }

  // ---------------------------------------------------------------- data past the declared end

  /** A byte is stored at or past the declared total. */
  ghost predicate Overshot(c: Context) {
    c.total >= 0 && exists x :: x >= c.total && Covered(c.ranges, x)
  }

  /** Such a context never delivers: each further fragment kills it or leaves it overshot. */
  lemma OvershotNeverDelivers(c: Context, f: Fragment, c': Context, out: Outcome)
    requires c.live && ContextInv(c) && f.Proper() && Overshot(c) && Receives(c, f, c', out)
    ensures !out.Delivered? && (c'.live ==> Overshot(c'))
  {
    hide Rebuilt, LogInv, FirstInv, TotalInv, RangesInv;
    if Objection(c, f) == Parked {
      var d :| Stored(c, f, d) && After(d, c', out);
      var x :| x >= c.total && Covered(c.ranges, x);
      assert Covered(d.ranges, x);
      assert d.total == c.total;
    }
  }
}
