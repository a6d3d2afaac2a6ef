/** Whole runs of the reassembly table: any fragments, any ticks, any number of datagrams at once. */
module ReassemblyRuns {
  import opened SeqSpace
  import opened Checksum
  import opened Ipv4
  import opened Ranges
  import opened ReassemblySpec
  import opened Fragmentation
  import opened Reassembly
  import opened ReassemblyTheorems

  datatype Event = Arrival(f: Fragment, dev: nat, now: nat) | Tick(now: nat)

  ghost predicate Step(t: seq<Context>, e: Event, t': seq<Context>, out: Outcome) {
    match e
    case Arrival(f, dev, now) => SoundHeader(f.hdr) && InputStep(t, f, dev, now, t', out)
    case Tick(now) => TickStep(t, now, t')
  }

  /** A run from an empty table: the events, the table before and after each, and the outcomes of arrivals. */
  datatype Run = Run(es: seq<Event>, ts: seq<seq<Context>>, outs: seq<Outcome>) {
    ghost predicate Valid() {
      && |ts| == |es| + 1 && |outs| == |es| && |ts[0]| == CONTEXTS
      && (forall i :: 0 <= i < CONTEXTS ==> |ts[0][i].payload| == MAX_PAYLOAD && ts[0][i] == Unused(ts[0][i].payload))
      && (forall n :: 0 <= n < |es| ==> Step(ts[n], es[n], ts[n + 1], outs[n]))
    }

    /** Fragment `g` arrived among the first `n` events. */
    ghost predicate Arrived(g: Fragment, n: nat)
      requires n <= |es|
    {
      exists k :: 0 <= k < n && es[k].Arrival? && es[k].f == g
    }

    /** What is held in a context came from the network, and it holds something. */
    ghost predicate Origin(n: nat)
      requires n <= |es| && n < |ts|
    {
      forall i :: 0 <= i < |ts[n]| && ts[n][i].live ==>
        |ts[n][i].log| > 0 && forall j :: 0 <= j < |ts[n][i].log| ==> Arrived(ts[n][i].log[j], n)
    }
  }

  lemma {:induction false} RunKeepsInv(r: Run, n: nat)
    requires r.Valid() && n <= |r.es|
    ensures TableInv(r.ts[n])
    decreases n
  {
    hide ContextInv, InputStep, TickStep, SoundHeader;
    if n == 0 {
      EmptyTable(r.ts[0]);
    } else {
      RunKeepsInv(r, n - 1);
      assert Step(r.ts[n - 1], r.es[n - 1], r.ts[n], r.outs[n - 1]);
      match r.es[n - 1]
      case Arrival(f, dev, now) => InputKeepsInv(r.ts[n - 1], f, dev, now, r.ts[n], r.outs[n - 1]);
      case Tick(now) => TickKeepsInv(r.ts[n - 1], now, r.ts[n]);
    }
  }

  /** The context an arrival leaves behind holds what it held and the arrival. */
  lemma LogAfter(c: Context, f: Fragment, c': Context, out: Outcome)
    requires |c.payload| == MAX_PAYLOAD && Receives(c, f, c', out)
    ensures c'.live ==> c'.log == c.log + [f]
  {
    hide IsInsertion, Rebuilt;
  }

  lemma {:induction false} RunOrigin(r: Run, n: nat)
    requires r.Valid() && n <= |r.es|
    ensures r.Origin(n)
    decreases n
  {
    hide ContextInv, Receives, SoundHeader, Victim, TableInv;
    if n > 0 {
      RunOrigin(r, n - 1);
      var t, t', e := r.ts[n - 1], r.ts[n], r.es[n - 1];
      assert Step(t, e, t', r.outs[n - 1]);
      forall i | 0 <= i < |t'| && t'[i].live
        ensures |t'[i].log| > 0 && forall j :: 0 <= j < |t'[i].log| ==> r.Arrived(t'[i].log[j], n)
      {
        OriginAt(r, n, i);
      }
    }
  }

  lemma OriginAt(r: Run, n: nat, i: nat)
    requires r.Valid() && 0 < n <= |r.es| && r.Origin(n - 1) && i < |r.ts[n]| && r.ts[n][i].live
    ensures |r.ts[n][i].log| > 0 && forall j :: 0 <= j < |r.ts[n][i].log| ==> r.Arrived(r.ts[n][i].log[j], n)
  {
    hide ContextInv, Receives, SoundHeader, Victim, TableInv;
    var t, t', e, out := r.ts[n - 1], r.ts[n], r.es[n - 1], r.outs[n - 1];
    assert Step(t, e, t', out);
    forall g | r.Arrived(g, n - 1)
      ensures r.Arrived(g, n)
    {
    }
    if e.Arrival? && e.f.Proper() {
      var k: nat, c: Context :| InputAt(t, e.f, e.dev, e.now, t', out, k, c);
      LogAfter(c, e.f, t'[k], out);
      assert r.Arrived(e.f, n);
    }
  }

  /**
   * Content: in every run, whatever fragments come, a delivered packet is put together from fragments
   * that arrived with its key, each byte from exactly one of them, under the header of the one at offset 0.
   */
  lemma DeliveredContent(r: Run, n: nat)
    requires r.Valid() && n < |r.es| && r.es[n].Arrival? && r.outs[n].Delivered?
    ensures exists log, total: nat ::
      && Assembles(log, r.es[n].f.key, total, r.outs[n].packet)
      && (forall j :: 0 <= j < |log| ==> r.Arrived(log[j], n + 1))
  {
    hide ContextInv, Receives, SoundHeader, TableInv, Assembles, Selected;
    var t, t', f, out := r.ts[n], r.ts[n + 1], r.es[n].f, r.outs[n];
    assert Step(t, r.es[n], t', out);
    RunKeepsInv(r, n);
    RunOrigin(r, n);
    var k: nat, c: Context :| InputAt(t, f, r.es[n].dev, r.es[n].now, t', out, k, c);
    SelectedInv(t, f.key, r.es[n].dev, r.es[n].now, k, c);
    SelectedLog(t, f.key, r.es[n].dev, r.es[n].now, k, c);
    var d := DeliveredFrom(c, f, t'[k], out);
    assert r.Arrived(f, n + 1);
    forall j | 0 <= j < |d.log|
      ensures r.Arrived(d.log[j], n + 1)
    {
      assert j < |c.log| ==> r.Arrived(d.log[j], n);
    }
  }

  lemma SelectedLog(t: seq<Context>, key: Key, dev: nat, now: nat, i: nat, c: Context)
    requires Selected(t, key, dev, now, i, c)
    ensures i < |t| && (c.log == [] || (t[i].live && c.log == t[i].log))
  {
  }

  lemma DeliveredFrom(c: Context, f: Fragment, c': Context, out: Outcome) returns (d: Context)
    requires c.live && ContextInv(c) && |c.payload| == MAX_PAYLOAD && f.Proper() && f.key == c.key && SoundHeader(f.hdr)
    requires Receives(c, f, c', out) && out.Delivered?
    ensures d.log == c.log + [f] && d.total >= 0 && Assembles(d.log, f.key, d.total, out.packet)
  {
    hide Assembles, LogInv, RangesInv, FirstInv, TotalInv, IsInsertion, SoundHeader, Rebuilt;
    d :| Stored(c, f, d) && After(d, c', out);
    StoredKeepsInv(c, f, d);
    CompleteAssembles(d);
  }

  // ---------------------------------------------------------------- a datagram amid other traffic

  /** While at most 8 keys are about, a new datagram finds a free context. */
  lemma NoEviction(t: seq<Context>, keys: set<Key>, key: Key, i: nat)
    requires TableInv(t) && |keys| <= CONTEXTS && key in keys
    requires forall j :: 0 <= j < |t| && t[j].live ==> t[j].key in keys
    requires (forall j :: 0 <= j < |t| ==> !Held(t, key, j)) && Victim(t, i)
    ensures !t[i].live
  {
    hide ContextInv;
    if t[i].live {
      var held := seq(CONTEXTS, j requires 0 <= j < CONTEXTS => t[j].key);
      forall j | 0 <= j < CONTEXTS
        ensures held[j] in keys - {key}
      {
        assert !Held(t, key, j);
        assert t[j].live;
      }
      ElementsCount(held);
      Smaller(Elements(held), keys - {key});
    }
  }

  /** An arrival for another datagram then leaves the contexts of `key` alone. */
  lemma OtherArrival(t: seq<Context>, f: Fragment, dev: nat, now: nat, t': seq<Context>, out: Outcome, keys: set<Key>,
                     key: Key)
    requires TableInv(t) && |keys| <= CONTEXTS && f.key in keys
    requires forall j :: 0 <= j < |t| && t[j].live ==> t[j].key in keys
    requires f.key != key && SoundHeader(f.hdr) && InputStep(t, f, dev, now, t', out)
    ensures |t'| == |t| && forall i :: 0 <= i < |t| && (Held(t, key, i) || Held(t', key, i)) ==> t'[i] == t[i]
  {
    hide ContextInv, SoundHeader, Receives, TableInv, Victim;
    if f.Proper() {
      var k: nat, c: Context :| InputAt(t, f, dev, now, t', out, k, c);
      SelectedInv(t, f.key, dev, now, k, c);
      ReceivesKeepsInv(c, f, t'[k], out);
      if forall j :: 0 <= j < |t| ==> !Held(t, f.key, j) {
        NoEviction(t, keys, f.key, k);
      }
    }
  }

  /** A datagram cut into pieces, the order in which they come, and the events at which they do. */
  datatype Sending = Sending(s: Split, order: seq<nat>, at: seq<nat>, keys: set<Key>) {
    ghost predicate Valid(r: Run) {
      && r.Valid() && s.Valid() && |s.fs| <= 62 && IsOrder(order, |s.fs|) && 0 < |at| == |s.fs|
      && (forall i, j :: 0 <= i < j < |at| ==> at[i] < at[j])
      && (forall j {:trigger at[j]} :: 0 <= j < |at| ==>
        at[j] < |r.es| && r.es[at[j]].Arrival? && r.es[at[j]].f == s.fs[order[j]])
      && Undisturbed(r)
    }

    /** The number of the last arrival. */
    function Last(): nat
      requires |at| > 0
    {
      at[|at| - 1]
    }

    /** No other fragment uses the key, at most 8 keys are about, and the context does not time out. */
    ghost predicate Undisturbed(r: Run)
      requires |at| > 0 && (forall j :: 0 <= j < |at| ==> at[j] < |r.es| && r.es[at[j]].Arrival?)
    {
      && |keys| <= CONTEXTS
      && (forall k :: 0 <= k <= Last() && r.es[k].Arrival? ==>
        r.es[k].f.key in keys && (r.es[k].f.key == s.key ==> k in at))
      && (forall k :: at[0] < k <= Last() && r.es[k].Tick? ==> r.es[k].now < r.es[at[0]].now + TIMEOUT_MS)
    }

    /** After `k` events, `m` pieces have come; they did what they should, and the context holds them. */
    ghost predicate Tracked(r: Run, k: nat, m: nat)
      requires Valid(r) && k <= |r.es|
    {
      && m <= |at|
      && (forall j :: 0 <= j < m ==> at[j] < k) && (forall j :: m <= j < |at| ==> k <= at[j])
      && (forall j :: 0 <= j < m ==> Expected(s, j, r.outs[at[j]]))
      && Here(r, k, m)
    }

    ghost predicate Here(r: Run, k: nat, m: nat)
      requires Valid(r) && k <= |r.es|
    {
      if m == 0 then forall i :: 0 <= i < |r.ts[k]| ==> !Held(r.ts[k], s.key, i)
      else m < |at| ==> exists i :: 0 <= i < |r.ts[k]| && InContext(r, r.ts[k][i], m)
    }

    ghost predicate InContext(r: Run, c: Context, m: nat)
      requires Valid(r)
    {
      Progress(s, order, c, m) && c.deadline == r.es[at[0]].now + TIMEOUT_MS
    }
  }

  lemma KeysKnown(r: Run, d: Sending, k: nat)
    requires d.Valid(r) && k <= d.Last() + 1
    ensures forall i :: 0 <= i < |r.ts[k]| && r.ts[k][i].live ==> r.ts[k][i].key in d.keys
  {
    hide Step, RangesInv, BytesInv, FirstInv, TotalInv, Split.Valid;
    RunKeepsInv(r, k);
    RunOrigin(r, k);
    forall i | 0 <= i < |r.ts[k]| && r.ts[k][i].live
      ensures r.ts[k][i].key in d.keys
    {
      var g := r.ts[k][i].log[0];
      assert r.Arrived(g, k);
    }
  }

  /** An event that is not one of the arrivals changes nothing for the datagram. */
  lemma Elsewhere(r: Run, d: Sending, k: nat, m: nat)
    requires d.Valid(r) && k <= d.Last() && d.Tracked(r, k, m) && k !in d.at
    ensures d.Here(r, k + 1, m)
  {
    hide ContextInv, SoundHeader, InputStep, TableInv, Split.Valid, Progress, IsOrder, Expected;
    var t, t', e := r.ts[k], r.ts[k + 1], r.es[k];
    assert Step(t, e, t', r.outs[k]);
    RunKeepsInv(r, k);
    KeysKnown(r, d, k);
    if e.Arrival? {
      OtherArrival(t, e.f, e.dev, e.now, t', r.outs[k], d.keys, d.s.key);
    }
    if m == 0 {
      forall i | 0 <= i < |t'|
        ensures !Held(t', d.s.key, i)
      {
        assert !Held(t, d.s.key, i);
      }
    } else if m < |d.at| {
      var i :| 0 <= i < |t| && d.InContext(r, t[i], m);
      ProgressHeld(d.s, d.order, t, i, m);
      assert d.at[0] < k;
      assert t'[i] == t[i];
    }
  }

  lemma ProgressHeld(s: Split, order: seq<nat>, t: seq<Context>, i: nat, m: nat)
    requires i < |t| && Progress(s, order, t[i], m)
    ensures Held(t, s.key, i)
  {
  }

  /** The context an arrival of the datagram goes to. */
  lemma Chosen(r: Run, d: Sending, k: nat, m: nat, i: nat, c: Context)
    requires d.Valid(r) && k < |r.es| && m < |d.at| && d.Here(r, k, m) && k == d.at[m] && TableInv(r.ts[k])
    requires Selected(r.ts[k], d.s.key, r.es[k].dev, r.es[k].now, i, c)
    ensures d.InContext(r, c, m)
  {
    hide ContextInv, Split.Valid, Expected, Victim, Step;
    var t := r.ts[k];
    if m == 0 {
      OpenedInv(d.s.key, r.es[k].dev, r.es[k].now, t[i].payload);
    } else {
      var j :| 0 <= j < |t| && d.InContext(r, t[j], m);
      ProgressHeld(d.s, d.order, t, j, m);
    }
  }

  /** One of the arrivals. */
  lemma Comes(r: Run, d: Sending, k: nat, m: nat)
    requires d.Valid(r) && k < |r.es| && d.Tracked(r, k, m) && m < |d.at| && k == d.at[m]
    ensures d.Tracked(r, k + 1, m + 1)
  {
    hide ContextInv, SoundHeader, TableInv, Split.Valid, Split.IsPiece, Receives, Selected, Progress, Expected;
    var t, t', e, out := r.ts[k], r.ts[k + 1], r.es[k], r.outs[k];
    assert Step(t, e, t', out);
    RunKeepsInv(r, k);
    d.s.Proper(d.order[m]);
    var i: nat, c: Context :| InputAt(t, e.f, e.dev, e.now, t', out, i, c);
    Chosen(r, d, k, m, i, c);
    FewRanges(d.s, d.order, c, m);
    Arrives(d.s, d.order, c, m, t'[i], out);
    assert m + 1 < |d.at| ==> d.InContext(r, t'[i], m + 1);
  }

  lemma {:induction false} Track(r: Run, d: Sending, k: nat) returns (m: nat)
    requires d.Valid(r) && k <= d.Last() + 1
    ensures d.Tracked(r, k, m)
    decreases k
  {
    hide ContextInv, SoundHeader, Split.Valid, Split.IsPiece, Step, Expected, Progress;
    if k == 0 {
      m := 0;
    } else {
      m := Track(r, d, k - 1);
      if k - 1 in d.at {
        var j :| 0 <= j < |d.at| && d.at[j] == k - 1;
        Comes(r, d, k - 1, m);
        m := m + 1;
      } else {
        Elsewhere(r, d, k - 1, m);
      }
    }
  }

  /**
   * The round trip amid traffic: the at most 62 fragments of a datagram, in any order, interleaved with
   * any fragments of other datagrams and any ticks, deliver its payload once, when the last one comes
   * and not before, provided that at most 8 keys are about and the timeout is not reached.
   */
  lemma RoundTripInTraffic(r: Run, d: Sending, j: nat)
    requires d.Valid(r) && j < |d.at|
    ensures Expected(d.s, j, r.outs[d.at[j]])
  {
    hide ContextInv, Step, Expected, Sending.Here;
    var m := Track(r, d, d.Last() + 1);
  }

  // ---------------------------------------------------------------- from sender to receiver

  /** `s` is what the receiver reads from the packets `ip_output` sent for `g`. */
  ghost predicate ReadFrom(s: Split, g: Datagram, mtu: nat, packets: seq<seq<byte>>)
    requires mtu >= HDR_MIN + 8
  {
    && s.key == g.Key() && s.payload == g.payload && s.c == ChunkSize(mtu) && |s.fs| == |packets|
    && forall k :: 0 <= k < |packets| ==>
         CheckHeader(packets[k]) == Accepted(packets[k]) && s.fs[k] == Parse(packets[k])
  }

  lemma ReadPiece(s: Split, g: Datagram, mtu: nat, packets: seq<seq<byte>>, k: nat)
    requires HDR_MIN + 8 <= mtu <= 0xffff && mtu < HDR_MIN + |g.payload| && |g.payload| <= MAX_PAYLOAD
    requires !BadSource(g.src)
    requires IsOutput(g, mtu, packets) && ReadFrom(s, g, mtu, packets) && k < |packets|
    ensures s.IsPiece(k) && k * s.c <= |g.payload| && s.fs[k].hdr == g.PieceHeader(s.c, k)
  {
    hide CheckHeader, Parse, SoundHeader;
    PieceParses(g, mtu, |packets|, k);
    AcceptedIsSound(packets[k]);
    PieceStarts(|g.payload|, s.c, |packets|, k);
  }

  /** The fragments sent for a datagram are a split of it, and rebuild the packet that was never cut. */
  lemma OutputSplits(s: Split, g: Datagram, mtu: nat, packets: seq<seq<byte>>)
    requires HDR_MIN + 8 <= mtu <= 0xffff && mtu < HDR_MIN + |g.payload| && |g.payload| <= MAX_PAYLOAD
    requires !BadSource(g.src)
    requires IsOutput(g, mtu, packets) && ReadFrom(s, g, mtu, packets)
    ensures s.Valid() && |s.fs[0].hdr| == HDR_MIN && Rebuilt(s.fs[0].hdr, s.payload) == g.Whole()
  {
    hide CheckHeader, Parse, Rebuilt, Split.IsPiece;
    forall k | 0 <= k < |s.fs|
      ensures s.IsPiece(k)
    {
      ReadPiece(s, g, mtu, packets, k);
    }
    ReadPiece(s, g, mtu, packets, 0);
    RebuiltIsWhole(g, s.c, 0);
  }

  /**
   * From `ip_output` to `ip_local_deliver`: a datagram of up to 4000 bytes sent in at most 62 fragments
   * is handed up as the very packet it would have been uncut, when its last fragment comes and only then.
   */
  lemma SendReceive(g: Datagram, mtu: nat, packets: seq<seq<byte>>, r: Run, d: Sending, j: nat)
    requires HDR_MIN + 8 <= mtu <= 0xffff && mtu < HDR_MIN + |g.payload| && |g.payload| <= MAX_PAYLOAD
    requires !BadSource(g.src)
    requires IsOutput(g, mtu, packets) && ReadFrom(d.s, g, mtu, packets) && d.Valid(r) && j < |packets|
    ensures r.outs[d.at[j]] == if j == |packets| - 1 then Delivered(g.Whole()) else Parked
  {
    hide CheckHeader, Parse, Rebuilt, Split.IsPiece, Step;
    OutputSplits(d.s, g, mtu, packets);
    RoundTripInTraffic(r, d, j);
  }
}
