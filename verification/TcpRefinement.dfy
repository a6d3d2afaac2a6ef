/** Runs of two control blocks: every sequence of calls and arrivals is a run of the two-endpoint system. */
module TcpRefinement {
  import opened SeqSpace
  import opened ByteRings
  import opened TcpSpec
  import opened TcpEvents
  import opened TcpSteps
  import opened TcpControlBlock
  import opened TcpSystem
  import opened TcpTheorems

  /** What the stack may ask of a control block, and what may arrive for it. */
  datatype Call =
    | Send(data: seq<byte>)
    | Receive(cap: nat)
    | Shut
    | Abandon
    | Nodelay(off: bool)
    | Clock
    | Arrival(seg: Segment, backlogFull: bool)

  /** An arrival is segment `i` of the peer; a closed block takes nothing else. */
  ghost predicate Enabled(c: Conn, call: Call, peer: Conn, i: nat) {
    && (c.st == Closed ==> call.Arrival?)
    && match call
       case Send(_) => c.st == Established || c.st == CloseWait
       case Shut => c.st != SynRcvd
       case Arrival(seg, _) =>
         i < |peer.sent| && peer.sent[i].seg == seg && Fresh(c, peer.sent[i])
       case _ => true
  }

  /** The event a call is, given what it returned. */
  function EventOf(call: Call, now: nat, i: nat, n: nat, bytes: seq<byte>): Event {
    match call
    case Send(data) => Event.Write(data, n, now)
    case Receive(cap) => Event.Read(cap, bytes)
    case Shut => Event.Close(now)
    case Abandon => Event.Abort
    case Nodelay(off) => Event.Nagle(off)
    case Clock => Event.Tick(now)
    case Arrival(_, backlogFull) => Event.Deliver(i, now, backlogFull)
  }

  /** Every object a block consists of. */
  ghost function Frame(x: Tcb): set<object>
    reads x.r.ooo
  {
    {x, x.s, x.s.ring, x.s.ring.buf, x.r, x.r.ring, x.r.ring.buf, x.r.ooo, x.t, x.g, x.o} + (set n | n in x.r.ooo.nodes)
  }

  /**
   * Whatever is called, in whatever state, the control block takes a step of the system: it does what
   * the event says, keeps its invariant, and only moves forward. `n` is what a send accepts, `bytes` what
   * a receive returns.
   */
  method Perform(x: Tcb, call: Call, now: nat, ghost peer: Conn, ghost i: nat) returns (n: nat, bytes: seq<byte>)
    requires x.Valid() && Enabled(x.Abs(), call, peer, i) && Inv(peer)
    modifies Frame(x)
    ensures x.Valid() && Extends(old(x.Abs()), x.Abs())
    ensures Step(old(x.Abs()), peer, EventOf(call, now, i, n, bytes), x.Abs())
    ensures forall p :: p in x.r.ooo.nodes ==> p in old(x.r.ooo.nodes) || fresh(p)
  {
    hide Tcb.Valid, Extends, WriteSpec, ReadSpec, CloseSpec, TickSpec, InputSpec, AbortSpec, Fresh, Refused, Core;
    OpenWindow(x);
    if call.Arrival? {
      Short(peer, i);
    }
    n, bytes := 0, [];
    match call
    case Send(data) => n := x.Write(data, now);
    case Receive(cap) =>
      var _, got := x.Recv(cap);
      bytes := got;
    case Shut => x.Close(now);
    case Abandon => x.Abort();
    case Nodelay(off) => x.SetNodelay(off);
    case Clock => x.Tick(now);
    case Arrival(seg, backlogFull) =>
      if x.st == Closed {
        x.SendResetFor(seg);
      } else {
        x.Input(seg, now, backlogFull);
      }
  }

  /** A call on one block leaves another that shares nothing with it alone, and they still share nothing. */
  method PerformBeside(x: Tcb, y: Tcb, call: Call, now: nat, ghost i: nat) returns (n: nat, bytes: seq<byte>)
    requires x.Valid() && y.Valid() && Frame(x) !! Frame(y) && Enabled(x.Abs(), call, y.Abs(), i)
    modifies Frame(x)
    ensures x.Valid() && Inv(x.Abs()) && Extends(old(x.Abs()), x.Abs())
    ensures Step(old(x.Abs()), y.Abs(), EventOf(call, now, i, n, bytes), x.Abs())
    ensures y.Valid() && y.Abs() == old(y.Abs()) && Frame(y) == old(Frame(y))
    ensures Frame(x) !! Frame(y) && fresh(Frame(x) - old(Frame(x)))
  {
    hide Tcb.Valid, Enabled, Step, Extends, Inv, EventOf;
    OpenWindow(y);
    n, bytes := Perform(x, call, now, y.Abs(), i);
    OpenWindow(x);
  }

  /** No segment of an endpoint is longer than our MSS, so the ring can take it whole. */
  lemma Short(c: Conn, i: nat)
    requires Inv(c) && i < |c.sent|
    ensures |c.sent[i].seg.data| + 2 <= RING
  {
    hide OwedInv, KarnInv;
    assert Faithful(c, c.sent[i]);
  }

  lemma OpenWindow(x: Tcb)
    requires x.Valid()
    ensures 0 <= x.Abs().rx.Window() && Inv(x.Abs()) && FlowInv(x.Abs().pace.flow)
  {
    hide LogInv, OwedInv, KarnInv, Tcb.Parts;
    WindowOpen(x.Abs());
  }

  /** So a step of either endpoint is a step of the system. */
  lemma StepIsNext(s: System, atA: bool, ev: Event, c': Conn)
    requires Inv(s.a) && Inv(s.b) && Inv(c') && Extends(Endpoint(s, atA), c')
    requires Step(Endpoint(s, atA), Endpoint(s, !atA), ev, c')
    ensures Next(s, atA, ev, if atA then s.(a := c') else s.(b := c'))
    ensures SystemInv(s) ==> SystemInv(if atA then s.(a := c') else s.(b := c'))
  {
    hide Inv, Extends, Step, Link;
    if SystemInv(s) {
      NextKeepsInv(s, atA, ev, if atA then s.(a := c') else s.(b := c'));
    }
  }

  lemma RunGrows(run: seq<System>, acts: seq<Action>, atA: bool, ev: Event, s: System)
    requires IsRun(run, acts) && Next(run[|acts|], atA, ev, s)
    ensures IsRun(run + [s], acts + [Action(atA, ev)])
  {
    hide Next, Init;
    var run', acts' := run + [s], acts + [Action(atA, ev)];
    forall k | 0 <= k < |acts'|
      ensures Next(run'[k], acts'[k].atA, acts'[k].ev, run'[k + 1])
    {
      if k < |acts| {
        assert Next(run[k], acts[k].atA, acts[k].ev, run[k + 1]);
      }
    }
  }

  // ---------------------------------------------------------------- opening

  /** `tcp_open_active` on a new block, and the SYN it sends. */
  method OpenActive(iss: Word32, now: nat) returns (x: Tcb, syn: Segment)
    ensures x.Valid() && Opened(x.Abs()) && !x.Abs().synced && x.Abs().iss == iss && fresh(Frame(x))
    ensures forall part :: part in Frame(x) ==> allocated(part)
    ensures syn.syn && !syn.rst && !syn.acks && syn.seqno == iss && |x.o.sent| == 1 && x.o.sent[0].seg == syn
  {
    hide Tcb.Valid, Tcb.Parts, Inv, Opened;
    x := new Tcb(iss);
    x.Connect(now);
    syn := Wire(iss, 0, RING, true, false, false, false, []);
    FirstSegment(x.Abs());
  }

  /** The first segment of an active open. */
  lemma FirstSegment(c: Conn)
    requires Opened(c) && !c.synced
    ensures |c.sent| == 1 && c.sent[0].seg == Wire(c.iss, 0, RING, true, false, false, false, [])
  {
    WrapWord(c.iss);
  }

  /** The child block of a listener that takes the SYN. */
  method OpenPassive(iss: Word32, syn: Segment, now: nat) returns (x: Tcb)
    requires syn.syn && !syn.rst && !syn.acks
    ensures x.Valid() && Opened(x.Abs()) && x.Abs().synced && x.Abs().iss == iss && x.Abs().irs == syn.seqno
    ensures fresh(Frame(x))
  {
    hide Tcb.Valid, Tcb.Parts, Inv, Opened;
    x := new Tcb(iss);
    x.Accept(syn, now);
  }

  method OpenBoth(issA: Word32, issB: Word32, listening: bool, now: nat) returns (x: Tcb, y: Tcb)
    ensures x.Valid() && y.Valid() && Frame(x) !! Frame(y) && fresh(Frame(x)) && fresh(Frame(y))
    ensures Init(System(x.Abs(), y.Abs()))
  {
    hide Tcb.Valid, Opened, Frame;
    var syn;
    x, syn := OpenActive(issA, now);
    if listening {
      y := OpenPassive(issB, syn, now);
    } else {
      y, syn := OpenActive(issB, now);
    }
  }

  lemma FirstRun(s: System)
    requires Init(s)
    ensures IsRun([s], [])
  {
  }

  lemma NoPart(x: Tcb, p: Pair)
    ensures p !in Frame(x)
  {
  }

  // ---------------------------------------------------------------- two control blocks

  /** Two control blocks and what has happened to them. */
  class Pair {
    const a: Tcb
    const b: Tcb
    ghost var run: seq<System>
    ghost var acts: seq<Action>

    ghost function Now(): System
      reads a, a.s, a.r, a.t, a.g, a.o, b, b.s, b.r, b.t, b.g, b.o
    {
      System(a.Abs(), b.Abs())
    }

    /** Both blocks are sound, share nothing, and are at the end of a run. */
    ghost predicate Valid()
      reads this, a.r.ooo, b.r.ooo, Frame(a), Frame(b)
    {
      && a.Valid() && b.Valid() && Frame(a) !! Frame(b) && this !in Frame(a) + Frame(b)
      && |run| == |acts| + 1 && IsRun(run, acts) && run[|acts|] == Now()
    }

    /** An active open, met by a listener (which takes the SYN) or by another active open. */
    constructor (issA: Word32, issB: Word32, listening: bool, now: nat)
      ensures Valid() && acts == [] && fresh(Frame(a)) && fresh(Frame(b))
    {
      hide Tcb.Valid, IsRun, Frame;
      var x, y := OpenBoth(issA, issB, listening, now);
      a, b := x, y;
      acts, run := [], [System(x.Abs(), y.Abs())];
      FirstRun(System(x.Abs(), y.Abs()));
      new;
      NoPart(a, this);
      NoPart(b, this);
    }

    /**
     * Any call on either block, at any time, with any arrival the network may bring: the run grows by one
     * step, and the blocks stay sound and apart.
     */
    method Step(atA: bool, call: Call, now: nat, ghost i: nat) returns (n: nat, bytes: seq<byte>)
      requires Valid() && Enabled(Endpoint(Now(), atA), call, Endpoint(Now(), !atA), i)
      modifies this, Frame(a), Frame(b)
      ensures Valid() && acts == old(acts) + [Action(atA, EventOf(call, now, i, n, bytes))] && run == old(run) + [Now()]
      ensures fresh(Frame(a) - old(Frame(a))) && fresh(Frame(b) - old(Frame(b)))
    {
      hide Tcb.Valid, IsRun, Enabled, TcpSystem.Step, Extends, Next, Inv, Link, Frame, EventOf;
      ghost var s := Now();
      RunKeepsInv(run, acts, |acts|);
      if atA {
        n, bytes := PerformBeside(a, b, call, now, i);
      } else {
        n, bytes := PerformBeside(b, a, call, now, i);
      }
      ghost var ev := EventOf(call, now, i, n, bytes);
      StepIsNext(s, atA, ev, Endpoint(Now(), atA));
      RunGrows(run, acts, atA, ev, Now());
      run, acts := run + [Now()], acts + [Action(atA, ev)];
    }

    // -------------------------------------------------------------- what holds of the two blocks at all times

    /** What either application has read is a prefix of what the other has written. */
    lemma Safe(atA: bool)
      requires Valid()
      ensures TcpTheorems.Read(acts, atA) <= Written(acts, !atA)
    {
      hide Tcb.Valid, IsRun, TcpTheorems.Read, Written;
      StreamSafety(run, acts, |acts|, atA);
      assert acts[..|acts|] == acts;
    }

    /** With something left to deliver, the timer of a block runs or its next tick probes, unless its cwnd is 0. */
    lemma Lively(atA: bool)
      requires Valid()
      ensures var x := if atA then a else b;
        && (Sending(x.st) && (x.s.tx.Unacked() != [] || x.s.tx.closed) && x.g.cwnd != 0 ==>
              x.t.deadline != 0 || ProbeDue(x.Abs()))
        && (x.st != Closed ==> (x.t.deadline != 0 <==> x.s.tx.una != x.s.tx.nxt))
    {
      hide Tcb.Valid, IsRun;
      NoStall(run, acts, |acts|, atA);
      RunKeepsInv(run, acts, |acts|);
      CoreTimer(Endpoint(Now(), atA));
    }

    /** Since any earlier point without progress, a live block has seen at most ten expiries. */
    lemma Bounded(atA: bool, i: nat)
      requires Valid() && i < |run|
      requires var x := if atA then a else b; x.st != Closed && x.s.tx.una == Endpoint(run[i], atA).tx.una
      ensures var x := if atA then a else b; x.t.fires - Endpoint(run[i], atA).pace.fires <= MAX_RTX
    {
      hide Tcb.Valid, IsRun;
      TimerDiscipline(run, acts, i, |acts|, atA);
    }

    /** The right edge of a block's receive window is at or past every earlier one, and past all it ever promised. */
    lemma EdgeStands(atA: bool, i: nat, k: nat)
      requires Valid() && i < |run|
      ensures var x, c := if atA then a else b, Endpoint(run[i], atA);
        && c.rx.RightEdge() <= x.r.rx.RightEdge()
        && (k < |x.o.sent| && x.o.sent[k].seg.acks && !x.o.sent[k].seg.rst ==>
              x.o.sent[k].ackPos + x.o.sent[k].seg.wnd <= x.r.rx.RightEdge())
    {
      hide Tcb.Valid, IsRun;
      RightEdgeNeverShrinks(run, acts, i, |acts|, atA, k);
      RightEdgeNeverShrinks(run, acts, |acts|, |acts|, atA, k);
    }
  }
}
