/** The table of reassembly contexts in place: `ip_reass_input`, `ip_reass_tick` and their helpers. */
module Reassembly {
  import opened SeqSpace
  import opened Checksum
  import opened Ipv4
  import opened Ranges
  import opened ReassemblySpec

  // ---------------------------------------------------------------- the table on values

  predicate Held(t: seq<Context>, key: Key, i: nat)
    requires i < |t|
  {
    t[i].live && t[i].key == key
  }

  /** What the table keeps: every context its invariant, and no two live ones a key. */
  ghost predicate TableInv(t: seq<Context>) {
    && |t| == CONTEXTS
    && (forall i :: 0 <= i < |t| ==> ContextInv(t[i]) && |t[i].payload| == MAX_PAYLOAD)
    && (forall i, j :: 0 <= i < j < |t| && t[i].live && t[j].live ==> t[i].key != t[j].key)
  }

  /** The context `ctx_alloc` takes: the first free one, else the first with the earliest deadline. */
  predicate Victim(t: seq<Context>, i: nat) {
    && i < |t|
    && if t[i].live then
        && (forall j :: 0 <= j < |t| ==> t[j].live && t[i].deadline <= t[j].deadline)
        && (forall j :: 0 <= j < i ==> t[i].deadline < t[j].deadline)
      else forall j :: 0 <= j < i ==> t[j].live
  }

  /** `c` is the context that a fragment with `key` goes to, at index `i`. */
  ghost predicate Selected(t: seq<Context>, key: Key, dev: nat, now: nat, i: nat, c: Context) {
    && i < |t|
    && if exists j :: 0 <= j < |t| && Held(t, key, j) then Held(t, key, i) && c == t[i]
      else Victim(t, i) && c == Opened(key, dev, now, t[i].payload)
  }

  /** `ip_reass_input` on values. */
  ghost predicate InputStep(t: seq<Context>, f: Fragment, dev: nat, now: nat, t': seq<Context>, out: Outcome) {
    if !f.Proper() then t' == t && out == BadFragment
    else exists i: nat, c: Context :: InputAt(t, f, dev, now, t', out, i, c)
  }

  ghost predicate InputAt(t: seq<Context>, f: Fragment, dev: nat, now: nat, t': seq<Context>, out: Outcome, i: nat,
                          c: Context) {
    && i < |t| && Selected(t, f.key, dev, now, i, c) && |c.payload| == MAX_PAYLOAD && |t'| == |t|
    && t' == t[i := t'[i]] && Receives(c, f, t'[i], out)
  }

  /** The start of the datagram quoted in the ICMP time-exceeded message of an expired context. */
  function Quote(c: Context): seq<byte>
    requires |c.payload| == MAX_PAYLOAD
  {
    c.hdr + c.payload[..if |c.ranges| > 0 && c.ranges[0].start == 0 then Min(8, c.ranges[0].end) else 0]
  }

  predicate Expired(c: Context, now: nat) { c.live && c.deadline <= now }

  /** `ip_reass_tick` on values, and the messages it sends. */
  ghost predicate TickStep(t: seq<Context>, now: nat, t': seq<Context>) {
    |t'| == |t| && forall i :: 0 <= i < |t| ==> t'[i] == Aged(t[i], now)
  }

  /** A context after a tick. */
  function Aged(c: Context, now: nat): Context {
    if Expired(c, now) then Unused(c.payload) else c
  }

  /** The table when a tick has passed its first `n` contexts. */
  function Ticked(t: seq<Context>, now: nat, n: nat): (r: seq<Context>)
    requires n <= |t|
    ensures |r| == |t| && (forall i :: 0 <= i < n ==> r[i] == Aged(t[i], now))
    ensures forall i :: n <= i < |t| ==> r[i] == t[i]
  {
    if n == 0 then t else Ticked(t, now, n - 1)[n - 1 := Aged(t[n - 1], now)]
  }

  /** The messages of a tick over the first `n` contexts. */
  function Notices(t: seq<Context>, now: nat, n: nat): seq<seq<byte>>
    requires n <= |t| && forall i :: 0 <= i < n ==> |t[i].payload| == MAX_PAYLOAD
  {
    if n == 0 then []
    else Notices(t, now, n - 1) + if Expired(t[n - 1], now) && t[n - 1].first then [Quote(t[n - 1])] else []
  }

  // ---------------------------------------------------------------- steps keep the invariant

  lemma OpenedInv(key: Key, dev: nat, now: nat, payload: seq<byte>)
    requires |payload| == MAX_PAYLOAD
    ensures ContextInv(Opened(key, dev, now, payload))
  {
    assert forall x :: !Covered([], x) && !Written([], x);
  }

  lemma ReceivesKeepsInv(c: Context, f: Fragment, c': Context, out: Outcome)
    requires c.live && ContextInv(c) && |c.payload| == MAX_PAYLOAD && f.Proper() && f.key == c.key && SoundHeader(f.hdr)
    requires Receives(c, f, c', out)
    ensures ContextInv(c') && |c'.payload| == MAX_PAYLOAD && (c'.live ==> c'.key == c.key)
  {
    if Objection(c, f) == Parked {
      var d :| Stored(c, f, d) && After(d, c', out);
      StoredKeepsInv(c, f, d);
      hide ContextInv, Objection, Rebuilt, IsInsertion;
    }
  }

  lemma SelectedInv(t: seq<Context>, key: Key, dev: nat, now: nat, i: nat, c: Context)
    requires TableInv(t) && Selected(t, key, dev, now, i, c)
    ensures c.live && c.key == key && ContextInv(c) && |c.payload| == MAX_PAYLOAD
    ensures forall j :: 0 <= j < |t| && j != i && t[j].live ==> t[j].key != key
  {
    hide ContextInv;
    OpenedInv(key, dev, now, t[i].payload);
    assert forall j :: 0 <= j < |t| && t[j].live && t[j].key == key ==> Held(t, key, j);
  }

  lemma InputKeepsInv(t: seq<Context>, f: Fragment, dev: nat, now: nat, t': seq<Context>, out: Outcome)
    requires TableInv(t) && SoundHeader(f.hdr) && InputStep(t, f, dev, now, t', out)
    ensures TableInv(t')
  {
    hide ContextInv, SoundHeader, Receives, Selected;
    if f.Proper() {
      var i: nat, c: Context :| InputAt(t, f, dev, now, t', out, i, c);
      SelectedInv(t, f.key, dev, now, i, c);
      ReceivesKeepsInv(c, f, t'[i], out);
    }
  }

  lemma TickKeepsInv(t: seq<Context>, now: nat, t': seq<Context>)
    requires TableInv(t) && TickStep(t, now, t')
    ensures TableInv(t')
  {
    hide LogInv, RangesInv, BytesInv, FirstInv, TotalInv;
  }

  lemma EmptyTable(t: seq<Context>)
    requires |t| == CONTEXTS
    requires forall i :: 0 <= i < CONTEXTS ==> |t[i].payload| == MAX_PAYLOAD && t[i] == Unused(t[i].payload)
    ensures TableInv(t)
  {
    hide LogInv, RangesInv, BytesInv, FirstInv, TotalInv;
  }

  /** When a context expires after its first fragment came, its quote holds at least one byte of data. */
  lemma QuoteHasData(c: Context)
    requires c.live && ContextInv(c) && c.first
    ensures |c.ranges| > 0 && c.ranges[0].start == 0 && |Quote(c)| > |c.hdr|
  {
    var i :| 0 <= i < |c.log| && c.log[i].off == 0;
    assert c.log[i].Holds(0) && Written(c.log, 0) && Covered(c.ranges, 0);
  }

  /** The header rewrite of `deliver_complete`. */
  method Rebuild(hdr: seq<byte>, payload: seq<byte>) returns (packet: seq<byte>)
    requires HDR_MIN <= |hdr| <= 60 && |payload| <= MAX_PAYLOAD
    ensures packet == Rebuilt(hdr, payload)
  {
    hide WordSum, Fold, Put16;
    var h := Put16(hdr, 2, |hdr| + |payload|);
    h := Put16(h, 6, 0);
    h := Put16(h, 10, 0);
    var csum := InetCsum(h);
    packet := Put16(h, 10, csum) + payload;
  }

  // ---------------------------------------------------------------- one context in place

  /** `struct ip_reass_ctx`; the payload buffer belongs to the slot. */
  class Slot {
    var inUse: bool
    var key: Key
    var dev: nat
    var deadline: nat
    var haveFirst: bool
    var expectedTotal: int
    var nranges: nat
    var hdr: seq<byte>
    const ranges: array<Range>
    const payload: array<byte>
    ghost var log: seq<Fragment>

    ghost predicate Shape()
      reads this
    {
      ranges.Length == MAX_RANGES && payload.Length == MAX_PAYLOAD && nranges <= MAX_RANGES
    }

    ghost function Value(): (c: Context)
      requires Shape()
      reads this, ranges, payload
      ensures |c.payload| == MAX_PAYLOAD
    {
      Context(inUse, key, dev, deadline, haveFirst, expectedTotal, ranges[..nranges], hdr, payload[..], log)
    }

    constructor ()
      ensures Shape() && Value() == Unused(Value().payload) && fresh(ranges) && fresh(payload)
    {
      inUse, key, dev, deadline := false, NO_KEY, 0, 0;
      haveFirst, expectedTotal, nranges, hdr, log := false, 0, 0, [], [];
      ranges := new Range[MAX_RANGES];
      payload := new byte[MAX_PAYLOAD];
    }

    /** `ctx_release`. */
    method Release()
      requires Shape()
      modifies this
      ensures Shape() && Value() == Unused(old(Value()).payload)
    {
      inUse, key, dev, deadline := false, NO_KEY, 0, 0;
      haveFirst, expectedTotal, nranges, hdr, log := false, 0, 0, [], [];
    }

    /** The end of `ctx_alloc` and the fields set by its caller, on a released context. */
    method Open(k: Key, d: nat, now: nat)
      requires Shape() && Value() == Unused(Value().payload)
      modifies this
      ensures Shape() && Value() == Opened(k, d, now, old(Value()).payload)
    {
      inUse, expectedTotal := true, -1;
      key, dev, deadline := k, d, now + TIMEOUT_MS;
    }

    /** The `memcpy` of the fragment's data. */
    method Copy(off: nat, data: seq<byte>)
      requires Shape() && off + |data| <= MAX_PAYLOAD
      modifies payload
      ensures payload[..] == old(payload[..off]) + data + old(payload[off + |data|..])
    {
      forall i | 0 <= i < |data| { payload[off + i] := data[i]; }
    }

    /** Marking the range, copying the data, and keeping the header of the fragment at offset 0. */
    method Store(f: Fragment) returns (ok: bool)
      requires Shape() && Canonical(Value().ranges) && f.Proper() && f.End() <= MAX_PAYLOAD
      modifies this, ranges, payload
      ensures Shape() && (ok <==> Clear(old(Value().ranges), f.off, f.End()) && |old(Value().ranges)| < MAX_RANGES)
      ensures !ok ==> Value() == old(Value())
      ensures ok ==> IsInsertion(old(Value().ranges), f.off, f.End(), Value().ranges)
      ensures ok ==> |Value().ranges| <= |old(Value().ranges)| + 1
      ensures ok ==> Value() == old(Value()).(ranges := Value().ranges, log := old(log) + [f],
                       payload := old(payload[..f.off]) + f.data + old(payload[f.End()..]),
                       first := old(haveFirst) || f.off == 0, hdr := if f.off == 0 then f.hdr else old(hdr))
    {
      hide Covered, Clear, Canonical;
      var m;
      ok, m := Insert(ranges, nranges, f.off, f.End());
      if !ok {
        assert ranges[..nranges] == ranges[..][..nranges];
        return;
      }
      nranges := m;
      Copy(f.off, f.data);
      if f.off == 0 {
        haveFirst := true;
        hdr := f.hdr;
      }
      log := log + [f];
    }

    /** `deliver_complete`. */
    method Deliver() returns (packet: seq<byte>)
      requires Shape() && inUse && ContextInv(Value()) && Complete(Value())
      modifies this
      ensures Shape() && After(old(Value()), Value(), Delivered(packet))
    {
      CompleteAssembles(Value());
      hide ContextInv, Assembles, Rebuilt;
      assert payload[..expectedTotal] == Value().payload[..expectedTotal];
      packet := Rebuild(hdr, payload[..expectedTotal]);
      Release();
    }

    /** The rest of `ip_reass_input`, once the context is known. */
    method Accept(f: Fragment) returns (out: Outcome)
      requires Shape() && inUse && ContextInv(Value()) && f.Proper() && f.key == key && SoundHeader(f.hdr)
      modifies this, ranges, payload
      ensures Shape() && Receives(old(Value()), f, Value(), out)
    {
      hide LogInv, BytesInv, FirstInv, TotalInv, Clear, Covered, Canonical, Rebuilt;
      ghost var c := Value();
      if f.End() > MAX_PAYLOAD {
        Release();
        return TooBig;
      }
      if !f.mf {
        if expectedTotal >= 0 && expectedTotal != f.End() {
          Release();
          return Conflict;
        }
        expectedTotal := f.End();
      }
      if expectedTotal >= 0 && f.End() > expectedTotal {
        Release();
        return Conflict;
      }
      var ok := Store(f);
      if !ok {
        Release();
        return Overlap;
      }
      out := Finish(c, f);
    }

    /** The completion check. */
    method Finish(ghost c: Context, f: Fragment) returns (out: Outcome)
      requires Shape() && c.live && ContextInv(c) && |c.payload| == MAX_PAYLOAD
      requires f.Proper() && f.key == c.key && SoundHeader(f.hdr) && Objection(c, f) == Parked && Stored(c, f, Value())
      modifies this
      ensures Shape() && Receives(c, f, Value(), out)
    {
      StoredKeepsInv(c, f, Value());
      hide ContextInv, Objection, Rebuilt, IsInsertion, SoundHeader;
      ghost var d := Value();
      if haveFirst && expectedTotal >= 0 && nranges == 1 && ranges[0].start == 0 && ranges[0].end == expectedTotal {
        var packet := Deliver();
        out := Delivered(packet);
      } else {
        out := Parked;
      }
      assert Stored(c, f, d) && After(d, Value(), out);
    }
  }

  // ---------------------------------------------------------------- the table in place

  class Table {
    const slots: seq<Slot>

    ghost predicate Shape()
      reads slots
    {
      && |slots| == CONTEXTS
      && (forall i, j :: 0 <= i < j < |slots| ==>
        slots[i] != slots[j] && slots[i].ranges != slots[j].ranges && slots[i].payload != slots[j].payload)
      && (forall i :: 0 <= i < |slots| ==> slots[i].Shape())
    }

    ghost function Values(n: nat): (t: seq<Context>)
      requires Shape() && n <= CONTEXTS
      reads slots, set s | s in slots :: s.ranges, set s | s in slots :: s.payload
      ensures |t| == n && forall i :: 0 <= i < n ==> t[i] == slots[i].Value()
    {
      if n == 0 then [] else Values(n - 1) + [slots[n - 1].Value()]
    }

    ghost function Value(): (t: seq<Context>)
      requires Shape()
      reads slots, set s | s in slots :: s.ranges, set s | s in slots :: s.payload
      ensures |t| == CONTEXTS && forall i :: 0 <= i < CONTEXTS ==> t[i] == slots[i].Value()
    {
      Values(CONTEXTS)
    }

    ghost predicate Valid()
      reads slots, set s | s in slots :: s.ranges, set s | s in slots :: s.payload
    {
      Shape() && TableInv(Value())
    }

    /** `ctx_find`. */
    method Find(key: Key) returns (found: bool, i: nat)
      requires Shape()
      ensures if found then i < CONTEXTS && Held(Value(), key, i)
        else forall j :: 0 <= j < CONTEXTS ==> !Held(Value(), key, j)
    {
      i := 0;
      while i < CONTEXTS
        invariant i <= CONTEXTS && forall j :: 0 <= j < i ==> !Held(Value(), key, j)
      {
        if slots[i].inUse && slots[i].key == key {
          return true, i;
        }
        i := i + 1;
      }
      found := false;
    }

    /** The scan of `ctx_alloc`. */
    method Choose() returns (v: nat)
      requires Shape()
      ensures Victim(Value(), v)
    {
      ghost var t := Value();
      v := 0;
      for i := 0 to CONTEXTS
        invariant v < CONTEXTS && v <= i
        invariant forall j :: 0 <= j < i ==> slots[j].inUse && slots[v].deadline <= slots[j].deadline
        invariant forall j :: 0 <= j < v ==> slots[v].deadline < slots[j].deadline
      {
        if !slots[i].inUse {
          assert forall j :: 0 <= j < i ==> t[j].live == slots[j].inUse;
          assert !t[i].live;
          return i;
        }
        if slots[i].deadline < slots[v].deadline {
          v := i;
        }
      }
      assert forall j :: 0 <= j < CONTEXTS ==> t[j].live == slots[j].inUse && t[j].deadline == slots[j].deadline;
    }

    /** `ctx_alloc` and the setting of the key: an evicted context is released first. */
    method Take(key: Key, dev: nat, now: nat) returns (i: nat)
      requires Valid()
      modifies slots
      ensures Shape() && i < CONTEXTS && Victim(old(Value()), i)
      ensures Value() == old(Value())[i := Opened(key, dev, now, old(Value())[i].payload)]
    {
      hide Victim, LogInv, RangesInv, BytesInv, FirstInv, TotalInv;
      i := Choose();
      assert i < CONTEXTS by { assert Victim(Value(), i); }
      assert ContextInv(Value()[i]);
      Renew(i, key, dev, now);
    }

    method Renew(i: nat, key: Key, dev: nat, now: nat)
      requires Shape() && i < CONTEXTS && (!slots[i].inUse ==> slots[i].Value() == Unused(slots[i].Value().payload))
      modifies slots[i]
      ensures Shape() && Value() == old(Value())[i := Opened(key, dev, now, old(Value())[i].payload)]
    {
      var s := slots[i];
      if s.inUse {
        s.Release();
      }
      s.Open(key, dev, now);
      assert forall j :: 0 <= j < CONTEXTS && j != i ==> slots[j].Value() == old(slots[j].Value());
    }

    method AcceptAt(i: nat, f: Fragment) returns (out: Outcome)
      requires Shape() && i < CONTEXTS && slots[i].inUse && ContextInv(slots[i].Value())
      requires f.Proper() && f.key == slots[i].key && SoundHeader(f.hdr)
      modifies slots[i], slots[i].ranges, slots[i].payload
      ensures Shape() && Value() == old(Value())[i := Value()[i]] && Receives(old(Value())[i], f, Value()[i], out)
    {
      hide ContextInv, Receives, SoundHeader;
      out := slots[i].Accept(f);
      assert forall j :: 0 <= j < CONTEXTS && j != i ==> slots[j].Value() == old(slots[j].Value());
    }

    /** The context for a key: the one that holds it, or a new one. */
    method Select(key: Key, dev: nat, now: nat) returns (i: nat)
      requires Valid()
      modifies slots
      ensures Shape() && i < CONTEXTS && Selected(old(Value()), key, dev, now, i, Value()[i])
      ensures Value() == old(Value())[i := Value()[i]]
    {
      hide Victim, ContextInv;
      var found;
      found, i := Find(key);
      if !found {
        i := Take(key, dev, now);
      }
    }

    /** `ip_reass_input` after the length checks. */
    method Process(f: Fragment, dev: nat, now: nat) returns (out: Outcome)
      requires Valid() && f.Proper() && SoundHeader(f.hdr)
      modifies slots, set s | s in slots :: s.ranges, set s | s in slots :: s.payload
      ensures Valid() && InputStep(old(Value()), f, dev, now, Value(), out)
    {
      hide Selected, Receives, ContextInv, SoundHeader, TableInv;
      ghost var t := Value();
      var i := Select(f.key, dev, now);
      ghost var c := Value()[i];
      SelectedInv(t, f.key, dev, now, i, c);
      out := AcceptAt(i, f);
      assert InputAt(t, f, dev, now, Value(), out, i, c);
      InputKeepsInv(t, f, dev, now, Value(), out);
    }

    /** `ip_reass_input`, on a packet that `ip_input` has accepted. */
    method Input(p: seq<byte>, dev: nat, now: nat) returns (out: Outcome)
      requires Valid() && CheckHeader(p) == Accepted(p)
      modifies slots, set s | s in slots :: s.ranges, set s | s in slots :: s.payload
      ensures Valid() && InputStep(old(Value()), Parse(p), dev, now, Value(), out)
    {
      hide InputAt, SoundHeader, TableInv, Parse, CheckHeader;
      AcceptedIsSound(p);
      var f := Parse(p);
      if |f.data| == 0 || (f.mf && |f.data| % 8 != 0) {
        return BadFragment;
      }
      out := Process(f, dev, now);
    }

    /**
     * `ip_reass_tick`: it frees exactly the contexts past their deadline and quotes those whose first
     * fragment came.
     */
    method Tick(now: nat) returns (notices: seq<seq<byte>>)
      requires Valid()
      modifies slots
      ensures Valid() && TickStep(old(Value()), now, Value()) && notices == Notices(old(Value()), now, CONTEXTS)
    {
      hide ContextInv, Aged, Expired, Quote, TableInv, Table.Values;
      notices := [];
      ghost var t := Value();
      for i := 0 to CONTEXTS
        invariant Shape() && Value() == Ticked(t, now, i) && notices == Notices(t, now, i)
      {
        var quote := Expire(i, now);
        notices := notices + quote;
      }
      TickKeepsInv(t, now, Value());
    }

    method Expire(i: nat, now: nat) returns (quote: seq<seq<byte>>)
      requires Shape() && i < CONTEXTS
      modifies slots[i]
      ensures Shape() && var c := old(Value())[i];
        && Value() == old(Value())[i := Aged(c, now)]
        && quote == if Expired(c, now) && c.first then [Quote(c)] else []
    {
      var s := slots[i];
      quote := [];
      if !s.inUse || now < s.deadline {
        return;
      }
      if s.haveFirst {
        var data8 := 0;
        if s.nranges > 0 && s.ranges[0].start == 0 {
          data8 := Min(8, s.ranges[0].end);
        }
        quote := [s.hdr + s.payload[..data8]];
        assert s.payload[..data8] == s.payload[..][..data8];
      }
      s.Release();
      assert forall j :: 0 <= j < CONTEXTS && j != i ==> slots[j].Value() == old(slots[j].Value());
    }

    /** `ip_reass_init`. */
    constructor ()
      ensures Valid() && forall i :: 0 <= i < CONTEXTS ==> !Value()[i].live
      ensures forall s :: s in slots ==> fresh(s) && fresh(s.ranges) && fresh(s.payload)
    {
      hide TableInv, ContextInv, Table.Values;
      var ss: seq<Slot> := [];
      for i := 0 to CONTEXTS
        invariant |ss| == i
        invariant forall a :: 0 <= a < i ==> fresh(ss[a]) && fresh(ss[a].ranges) && fresh(ss[a].payload)
        invariant forall a :: 0 <= a < i ==> ss[a].Shape() && ss[a].Value() == Unused(ss[a].Value().payload)
        invariant forall a, b :: 0 <= a < b < i ==>
          ss[a] != ss[b] && ss[a].ranges != ss[b].ranges && ss[a].payload != ss[b].payload
      {
        var s := new Slot();
        ss := ss + [s];
      }
      slots := ss;
      new;
      EmptyTable(Value());
    }
  }
}
