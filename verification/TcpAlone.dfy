/** A control block that faces any peer: every use of it is a trace, so what `TcpTraces` states holds of the object. */
module TcpAlone {
  import opened SeqSpace
  import opened Common
  import opened ByteRings
  import opened TcpSpec
  import opened TcpEvents
  import opened TcpSteps
  import opened TcpControlBlock
  import opened TcpSystem
  import opened TcpRefinement
  import opened TcpTraces

  /** What may be asked of a block; any segment of a plausible length may arrive. */
  ghost predicate Allowed(c: Conn, call: Call) {
    && (c.st == Closed ==> call.Arrival?)
    && match call
       case Send(_) => c.st == Established || c.st == CloseWait
       case Shut => c.st != SynRcvd
       case Arrival(seg, _) => |seg.data| + 2 <= RING
       case _ => true
  }

  function StimulusFor(call: Call, now: nat, n: nat, bytes: seq<byte>): Stimulus {
    if call.Arrival? then Comes(call.seg, now, call.backlogFull) else Own(EventOf(call, now, 0, n, bytes))
  }

  /** Whatever is called and whatever arrives, the block makes a move of a trace. */
  method Meet(x: Tcb, call: Call, now: nat) returns (n: nat, bytes: seq<byte>)
    requires x.Valid() && Allowed(x.Abs(), call)
    modifies Frame(x)
    ensures x.Valid() && Moves(old(x.Abs()), StimulusFor(call, now, n, bytes), x.Abs())
    ensures forall p :: p in x.r.ooo.nodes ==> p in old(x.r.ooo.nodes) || fresh(p)
  {
    hide Tcb.Valid, Extends, WriteSpec, ReadSpec, CloseSpec, TickSpec, InputSpec, AbortSpec, Refused, Core, Inv;
    OpenWindow(x);
    n, bytes := 0, [];
    match call {
      case Send(data) => n := x.Write(data, now);
      case Receive(cap) =>
        var _, got := x.Recv(cap);
        bytes := got;
      case Shut => x.Close(now);
      case Abandon => x.Abort();
      case Nodelay(off) => x.SetNodelay(off);
      case Clock => x.Tick(now);
      case Arrival(seg, backlogFull) =>
        if x.st == Closed {
          x.SendResetFor(seg);
        } else {
          x.Input(seg, now, backlogFull);
        }
    }
    OpenWindow(x);
  }

  /** A new block, opened actively or by a listener that takes a SYN. */
  method Open(iss: Word32, syn: Option<Segment>, now: nat) returns (y: Tcb)
    requires syn.Some? ==> syn.value.syn && !syn.value.rst && !syn.value.acks
    ensures y.Valid() && Opened(y.Abs()) && y.r.synced == syn.Some? && fresh(Frame(y))
    ensures syn.Some? ==> y.s.mss == EffectiveMss(syn.value.mss)
  {
    hide Tcb.Valid, Tcb.Parts, Inv, Opened, Tcb.Unused;
    y := new Tcb(iss);
    if syn.Some? {
      y.Accept(syn.value, now);
    } else {
      y.Connect(now);
    }
  }

  lemma TraceGrows(tr: Trace, s: Stimulus, c: Conn)
    requires tr.Valid() && Moves(tr.conns[|tr.stims|], s, c)
    ensures tr.(conns := tr.conns + [c], stims := tr.stims + [s]).Valid()
  {
    hide Moves, Opened;
    var tr' := tr.(conns := tr.conns + [c], stims := tr.stims + [s]);
    forall k | 0 <= k < |tr'.stims| ensures Moves(tr'.conns[k], tr'.stims[k], tr'.conns[k + 1]) {
      if k < |tr.stims| {
        assert Moves(tr.conns[k], tr.stims[k], tr.conns[k + 1]);
      }
    }
  }

  /** A control block and all that has happened to it. */
  class Alone {
    const x: Tcb
    ghost var tr: Trace

    ghost predicate Valid()
      reads this, x.r.ooo, Frame(x)
    {
      x.Valid() && this !in Frame(x) && tr.Valid() && tr.conns[|tr.stims|] == x.Abs()
    }

    /** Opened actively, or by a listener that takes a SYN. */
    constructor (iss: Word32, syn: Option<Segment>, now: nat)
      requires syn.Some? ==> syn.value.syn && !syn.value.rst && !syn.value.acks
      ensures Valid() && tr.stims == [] && (syn.Some? ==> x.r.synced && tr.syn == syn.value.mss) && fresh(Frame(x))
    {
      hide Tcb.Valid, Opened, Frame;
      var y := Open(iss, syn, now);
      x := y;
      tr := Trace([y.Abs()], [], if syn.Some? then syn.value.mss else 0);
      new;
      Apart(x, this);
    }

    /** One more thing happens. */
    method Face(call: Call, now: nat) returns (n: nat, bytes: seq<byte>)
      requires Valid() && Allowed(x.Abs(), call)
      modifies this, Frame(x)
      ensures Valid() && tr.syn == old(tr.syn) && tr.conns == old(tr.conns) + [x.Abs()]
      ensures tr.stims == old(tr.stims) + [StimulusFor(call, now, n, bytes)]
    {
      hide Tcb.Valid, Moves, Allowed, Trace.Valid, Frame;
      n, bytes := Meet(x, call, now);
      TraceLength(tr);
      TraceGrows(tr, StimulusFor(call, now, n, bytes), x.Abs());
      tr := tr.(conns := tr.conns + [x.Abs()], stims := tr.stims + [StimulusFor(call, now, n, bytes)]);
      Apart(x, this);
    }

    /** No text segment the block has ever sent is longer than the peer's SYN allows. */
    lemma Fits(k: nat) returns (m: nat)
      requires Valid() && k < |x.o.sent| && x.o.sent[k].seg.data != []
      ensures tr.Valid() && TookMss(tr, |tr.stims|, m) && |x.o.sent[k].seg.data| <= if m == 0 then 536 else m
    {
      hide Tcb.Valid, Trace.Valid, TookMss;
      TraceLength(tr);
      m := SegmentsFit(tr, |tr.stims|, k);
    }

    /** In TIME-WAIT the deadline of the block is 10 seconds after the step that started it. */
    lemma Waits() returns (k: nat)
      requires Valid() && x.st == TimeWait
      ensures k < |tr.stims| < |tr.conns| && StartsWait(tr.conns[k], tr.stims[k])
      ensures x.timewaitDeadline == tr.stims[k].now + 10000
    {
      hide Tcb.Valid, Trace.Valid, StartsWait;
      TraceLength(tr);
      k := WaitLasts(tr, |tr.stims|);
    }
  }

  lemma TraceLength(tr: Trace)
    requires tr.Valid()
    ensures |tr.conns| == |tr.stims| + 1
  {
    hide Moves, Opened;
  }

  lemma Apart(x: Tcb, a: Alone)
    ensures a !in Frame(x)
  {
  }
}
