/** Whole runs of the ARP cache: conservation of parked packets, order, bounded requests. */
module ArpTheorems {
  import opened SeqSpace
  import opened Common
  import opened ArpSpec
  import opened Arp

  datatype Op =
    | Resolve(ip: Word32, dev: nat, p: Option<Packet>, now: nat, ans: Option<Mac>)
    | Hear(at: Device, f: Frame, now: nat)
    | Tick(now: nat)

  /** One operation, and what it does besides changing the entries. */
  ghost predicate Step(es: seq<Entry>, op: Op, es': seq<Entry>, did: seq<Action>) {
    match op
    case Resolve(ip, dev, p, now, ans) => Resolves(es, ip, dev, p, now, es', did, ans)
    case Hear(dev, f, now) => Hears(es, dev, f, now, es', did)
    case Tick(now) => es' == Ticked(es, now, |es|) && did == TickedLog(es, now, |es|)
  }

  // ---------------------------------------------------------------- every operation keeps the invariant

  lemma OpensInv(es: seq<Entry>, log: seq<Action>, ip: Word32, dev: nat, now: nat, i: nat, es': seq<Entry>,
                 did: seq<Action>)
    requires Inv(es, log) && Opens(es, ip, dev, now, i, es', did)
    requires !exists j: nat :: Live(es, ip, j) && es[j].state == Resolved
    ensures Inv(es', log + did) && i < |es'| && es'[i].state == Pending
  {
    hide Inv, Victim;
    if Known(es, ip) {
      assert es[i].state != Resolved;
      assert log + did == log;
    } else {
      EvictInv(es, log, i);
      var es1, log1 := es[i := Emptied(es[i])], log + EvictionLog(es[i]);
      AskingInv(es1, log1, i, ip, dev, now);
      assert es1[i := Asking(es1[i], ip, dev, now)] == es';
      assert log1 + [Begin(ip), Request(ip, dev)] == log + did;
    }
  }

  lemma ResolvesInv(es: seq<Entry>, log: seq<Action>, op: Op, es': seq<Entry>, did: seq<Action>)
    requires Inv(es, log) && op.Resolve? && Step(es, op, es', did)
    ensures Inv(es', log + did)
  {
    hide Inv, Opens, Queued, QueuedLog;
    if exists i: nat :: Live(es, op.ip, i) && es[i].state == Resolved {
      assert log + did == log;
    } else {
      var i: nat, es1, did1 :| Opens(es, op.ip, op.dev, op.now, i, es1, did1) && Parks(es1, did1, i, op.p, es', did);
      OpensInv(es, log, op.ip, op.dev, op.now, i, es1, did1);
      if op.p.Some? {
        QueuedInv(es1, log + did1, i, op.p.value);
        assert log + did1 + QueuedLog(es1[i], op.p.value) == log + did;
      }
    }
  }

  lemma MergesInv(es: seq<Entry>, log: seq<Action>, dev: Device, f: Frame, now: nat, es': seq<Entry>, did: seq<Action>)
    requires Inv(es, log) && Merges(es, dev, f, now, es', did)
    ensures Inv(es', log + did)
  {
    hide Inv, Victim, Bound, BoundLog, Leaves;
    if f.spa != 0 && Known(es, f.spa) {
      var i: nat :| Live(es, f.spa, i) && es' == es[i := Bound(es[i], dev.id, f.sha, now)]
        && did == BoundLog(es[i], dev.id, f.sha);
      BoundInv(es, log, i, dev.id, f.sha, now);
    } else if f.spa != 0 && ForUs(dev, f) {
      var i: nat :| i < |es| && Victim(es, i) && es' == es[i := Bound(Emptied(es[i]).(ip := f.spa), dev.id, f.sha, now)]
        && did == EvictionLog(es[i]);
      EvictInv(es, log, i);
      LearnInv(es[i := Emptied(es[i])], log + did, i, f.spa, dev.id, f.sha, now);
      assert es[i := Emptied(es[i])][i := Bound(Emptied(es[i]).(ip := f.spa), dev.id, f.sha, now)] == es';
    } else {
      assert log + did == log;
    }
  }

  lemma HearsInv(es: seq<Entry>, log: seq<Action>, op: Op, es': seq<Entry>, did: seq<Action>)
    requires Inv(es, log) && op.Hear? && Step(es, op, es', did)
    ensures Inv(es', log + did)
  {
    hide Inv, Merges;
    if Malformed(op.f) {
      assert log + did == log;
    } else {
      var merge :| Merges(es, op.at, op.f, op.now, es', merge) && did == merge + Answers(op.at, op.f);
      MergesInv(es, log, op.at, op.f, op.now, es', merge);
      if Answers(op.at, op.f) == [] {
        assert log + did == log + merge;
      } else {
        ReplyInv(es', log + merge, Answers(op.at, op.f)[0]);
        assert log + merge + [Answers(op.at, op.f)[0]] == log + did;
      }
    }
  }

  lemma {:induction false} TickedInv(es: seq<Entry>, log: seq<Action>, now: nat, n: nat)
    requires Inv(es, log) && n <= |es|
    ensures Inv(Ticked(es, now, n), log + TickedLog(es, now, n))
    decreases n
  {
    hide Inv, Aged, AgedLog;
    if n == 0 {
      assert log + [] == log;
    } else {
      TickedInv(es, log, now, n - 1);
      var es1, log1 := Ticked(es, now, n - 1), log + TickedLog(es, now, n - 1);
      AgedInv(es1, log1, n - 1, now);
      assert log1 + AgedLog(es[n - 1], now) == log + TickedLog(es, now, n);
    }
  }

  lemma StepInv(es: seq<Entry>, log: seq<Action>, op: Op, es': seq<Entry>, did: seq<Action>)
    requires Inv(es, log) && Step(es, op, es', did)
    ensures Inv(es', log + did)
  {
    hide Inv, Hears, Resolves;
    match op
    case Resolve(_, _, _, _, _) => ResolvesInv(es, log, op, es', did);
    case Hear(_, _, _) => HearsInv(es, log, op, es', did);
    case Tick(now) => TickedInv(es, log, now, |es|);
  }

  // ---------------------------------------------------------------- runs

  /** A run from an empty cache: its operations, and the cache and history around each. */
  datatype Run = Run(ops: seq<Op>, caches: seq<seq<Entry>>, logs: seq<seq<Action>>) {
    ghost predicate Valid() {
      && |caches| == |logs| == |ops| + 1 && |caches[0]| == CACHE_SIZE && logs[0] == []
      && (forall i :: 0 <= i < CACHE_SIZE ==> caches[0][i] == CLEARED)
      && (forall n :: 0 <= n < |ops| ==>
           exists did :: Step(caches[n], ops[n], caches[n + 1], did) && logs[n + 1] == logs[n] + did)
    }
  }

  lemma EmptyInv(es: seq<Entry>)
    requires |es| == CACHE_SIZE && forall i :: 0 <= i < CACHE_SIZE ==> es[i] == CLEARED
    ensures Inv(es, [])
  {
  }

  lemma {:induction false} RunInv(r: Run, n: nat)
    requires r.Valid() && n <= |r.ops|
    ensures Inv(r.caches[n], r.logs[n])
    decreases n
  {
    hide Inv, Step;
    if n == 0 {
      EmptyInv(r.caches[0]);
    } else {
      RunInv(r, n - 1);
      var did :| Step(r.caches[n - 1], r.ops[n - 1], r.caches[n], did) && r.logs[n] == r.logs[n - 1] + did;
      StepInv(r.caches[n - 1], r.logs[n - 1], r.ops[n - 1], r.caches[n], did);
    }
  }

  // ---------------------------------------------------------------- packets taken

  /** The packet an operation takes for an address: given to `arp_resolve`, which had no answer. */
  function TakenBy(op: Op, ip: Word32): seq<Packet> {
    if op.Resolve? && op.ip == ip && op.p.Some? && op.ans.None? then [op.p.value] else []
  }

  function Taken(ops: seq<Op>, ip: Word32): seq<Packet> {
    if ops == [] then [] else Taken(ops[..|ops| - 1], ip) + TakenBy(ops[|ops| - 1], ip)
  }

  lemma {:induction false} ParkedJoin(log: seq<Action>, did: seq<Action>, ip: Word32)
    ensures ParkedIn(log + did, ip) == ParkedIn(log, ip) + ParkedIn(did, ip)
    decreases |did|
  {
    if did == [] {
      assert log + did == log;
    } else {
      var rest := did[..|did| - 1];
      ParkedJoin(log, rest, ip);
      assert (log + did)[..|log + did| - 1] == log + rest;
    }
  }

  lemma {:induction false} NothingParked(did: seq<Action>, ip: Word32)
    requires forall a :: a in did ==> !a.Park?
    ensures ParkedIn(did, ip) == []
    decreases |did|
  {
    if did != [] {
      NothingParked(did[..|did| - 1], ip);
    }
  }

  lemma {:induction false} TickParksNothing(es: seq<Entry>, now: nat, n: nat, a: Action)
    requires n <= |es| && a in TickedLog(es, now, n)
    ensures !a.Park?
    decreases n
  {
    if a in TickedLog(es, now, n - 1) {
      TickParksNothing(es, now, n - 1, a);
    } else {
      var e := es[n - 1];
      if a in Leaves(e.ip, e.waitq, Dropped) {
        LeavesAre(e.ip, e.waitq, Dropped, a);
      }
    }
  }

  lemma HearParksNothing(es: seq<Entry>, op: Op, es': seq<Entry>, did: seq<Action>, a: Action)
    requires op.Hear? && Step(es, op, es', did) && a in did
    ensures !a.Park?
  {
    hide Victim, Leaves, EvictionLog, Bound, BoundLog;
    var merge :| Merges(es, op.at, op.f, op.now, es', merge) && did == merge + Answers(op.at, op.f);
    if a in merge {
      if op.f.spa != 0 && Known(es, op.f.spa) {
        var i: nat :| Live(es, op.f.spa, i) && merge == BoundLog(es[i], op.at.id, op.f.sha);
        BoundSends(es[i], op.at.id, op.f.sha, a);
      } else {
        var i: nat :| i < |es| && merge == EvictionLog(es[i]);
        EvictionDrops(es[i], a);
      }
    }
  }

  lemma EvictionDrops(e: Entry, a: Action)
    requires a in EvictionLog(e)
    ensures a.Leave? && a.fate == Dropped
  {
    LeavesAre(e.ip, e.waitq, Dropped, a);
  }

  /** A resolution parks exactly the packet it takes, for the address it was asked about. */
  lemma ResolveParks(es: seq<Entry>, op: Op, es': seq<Entry>, did: seq<Action>, ip: Word32)
    requires op.Resolve? && Step(es, op, es', did)
    ensures ParkedIn(did, ip) == TakenBy(op, ip)
  {
    hide Victim, Leaves, EvictionLog, Queued;
    if !exists i: nat :: Live(es, op.ip, i) && es[i].state == Resolved {
      var i: nat, es1, did1 :| Opens(es, op.ip, op.dev, op.now, i, es1, did1) && Parks(es1, did1, i, op.p, es', did);
      forall a: Action | a in did1
        ensures !a.Park?
      {
        if !Known(es, op.ip) && a in EvictionLog(es[i]) {
          EvictionDrops(es[i], a);
        }
      }
      NothingParked(did1, ip);
      if op.p.Some? {
        QueuedParks(es1[i], op.p.value, ip);
        ParkedJoin(did1, QueuedLog(es1[i], op.p.value), ip);
      }
    }
  }

  lemma QueuedParks(e: Entry, p: Packet, ip: Word32)
    ensures ParkedIn(QueuedLog(e, p), ip) == if e.ip == ip then [p] else []
  {
    var drops: seq<Action> := if |e.waitq| >= WAITQ_MAX then [Leave(e.ip, e.waitq[0], Dropped)] else [];
    NothingParked(drops, ip);
    ParkedJoin(drops, [Park(e.ip, p)], ip);
    var park: seq<Action> := [Park(e.ip, p)];
    assert park[..0] == [];
  }

  lemma StepTakes(es: seq<Entry>, op: Op, es': seq<Entry>, did: seq<Action>, ip: Word32)
    requires Step(es, op, es', did)
    ensures ParkedIn(did, ip) == TakenBy(op, ip)
  {
    hide Resolves, Hears, Ticked, TickedLog, ParkedIn;
    match op
    case Resolve(_, _, _, _, _) => ResolveParks(es, op, es', did, ip);
    case Hear(_, f, _) =>
      forall a: Action | a in did ensures !a.Park? { HearParksNothing(es, op, es', did, a); }
      NothingParked(did, ip);
    case Tick(now) =>
      forall a: Action | a in did ensures !a.Park? { TickParksNothing(es, now, |es|, a); }
      NothingParked(did, ip);
  }

  /** What the history says was parked for an address is what the calls of the run gave up for it, in order. */
  lemma {:induction false} ParkedIsTaken(r: Run, n: nat, ip: Word32)
    requires r.Valid() && n <= |r.ops|
    ensures ParkedIn(r.logs[n], ip) == Taken(r.ops[..n], ip)
    decreases n
  {
    hide Step, TakenBy;
    if n > 0 {
      var did :| Step(r.caches[n - 1], r.ops[n - 1], r.caches[n], did) && r.logs[n] == r.logs[n - 1] + did;
      ParkedIsTaken(r, n - 1, ip);
      StepTakes(r.caches[n - 1], r.ops[n - 1], r.caches[n], did, ip);
      ParkedJoin(r.logs[n - 1], did, ip);
      assert r.ops[..n][..n - 1] == r.ops[..n - 1];
    }
  }

  /**
   * In every run and for every address: the packets taken for it are, in the order they were taken,
   * those that left (each once) and then those in the wait queue of its entry; no resolution of it asked
   * more than three times; and at most one entry stands for it.
   */
  lemma PacketsConserved(r: Run, n: nat, ip: Word32)
    requires r.Valid() && n <= |r.ops|
    ensures Waiting(r.logs[n], ip).Some?
    ensures Taken(r.ops[..n], ip) == LeftIn(r.logs[n], ip) + Waiting(r.logs[n], ip).value
    ensures forall i: nat :: Live(r.caches[n], ip, i) ==> Waiting(r.logs[n], ip).value == r.caches[n][i].waitq
    ensures !Known(r.caches[n], ip) ==> Waiting(r.logs[n], ip).value == []
    ensures |Waiting(r.logs[n], ip).value| <= WAITQ_MAX && Asked(r.logs[n], ip) <= MAX_TRIES
    ensures forall i: nat, j: nat :: Live(r.caches[n], ip, i) && Live(r.caches[n], ip, j) ==> i == j
  {
    hide Waiting, Asked, ParkedIn, LeftIn, Taken, Step;
    RunInv(r, n);
    if Known(r.caches[n], ip) {
      var i: nat :| Live(r.caches[n], ip, i);
      assert EntryInv(r.caches[n][i]);
    }
    Conservation(r.logs[n], ip);
    ParkedIsTaken(r, n, ip);
  }

  // ---------------------------------------------------------------- where packets are sent

  /** Packet `a` was sent because of a frame from its next hop, to the address in that frame. */
  ghost predicate Justified(ops: seq<Op>, a: Action) {
    a.Leave? && a.fate.Sent? ==>
      exists m :: 0 <= m < |ops| && ops[m].Hear? && ops[m].f.spa == a.ip
        && ops[m].f.sha == a.fate.mac && ops[m].at.id == a.fate.dev
  }

  lemma {:induction false} LeavesAre(ip: Word32, q: seq<Packet>, fate: Fate, a: Action)
    requires a in Leaves(ip, q, fate)
    ensures a.Leave? && a.ip == ip && a.fate == fate
    decreases |q|
  {
    if a != Leave(ip, q[0], fate) {
      LeavesAre(ip, q[1..], fate, a);
    }
  }

  /** The sends of one operation. */
  ghost predicate SendsOnly(op: Op, did: seq<Action>) {
    forall a :: a in did && a.Leave? && a.fate.Sent? ==>
      op.Hear? && op.f.spa == a.ip && op.f.sha == a.fate.mac && op.at.id == a.fate.dev
  }

  lemma {:induction false} TickSendsNothing(es: seq<Entry>, now: nat, n: nat, a: Action)
    requires n <= |es| && a in TickedLog(es, now, n)
    ensures !(a.Leave? && a.fate.Sent?)
    decreases n
  {
    if a in TickedLog(es, now, n - 1) {
      TickSendsNothing(es, now, n - 1, a);
    } else {
      var e := es[n - 1];
      if a in Leaves(e.ip, e.waitq, Dropped) {
        LeavesAre(e.ip, e.waitq, Dropped, a);
      }
    }
  }

  lemma BoundSends(e: Entry, dev: nat, mac: Mac, a: Action)
    requires a in BoundLog(e, dev, mac)
    ensures a.Leave? && a.ip == e.ip && a.fate == Sent(dev, mac)
  {
    LeavesAre(e.ip, e.waitq, Sent(dev, mac), a);
  }

  lemma StepSends(es: seq<Entry>, op: Op, es': seq<Entry>, did: seq<Action>)
    requires Step(es, op, es', did)
    ensures SendsOnly(op, did)
  {
    hide Leaves, Victim, Bound, Queued, Emptied, Ticked, TickedLog, EvictionLog;
    forall a | a in did && a.Leave? && a.fate.Sent?
      ensures op.Hear? && op.f.spa == a.ip && op.f.sha == a.fate.mac && op.at.id == a.fate.dev
    {
      match op
      case Tick(now) => TickSendsNothing(es, now, |es|, a);
      case Resolve(ip, dev, p, now, ans) => ResolveSendsNothing(es, op, es', did, a);
      case Hear(dev, f, now) => HearSends(es, op, es', did, a);
    }
  }

  lemma ResolveSendsNothing(es: seq<Entry>, op: Op, es': seq<Entry>, did: seq<Action>, a: Action)
    requires op.Resolve? && Step(es, op, es', did) && a in did
    ensures !(a.Leave? && a.fate.Sent?)
  {
    hide Victim, Leaves, EvictionLog, Queued, Asking;
    if !exists i: nat :: Live(es, op.ip, i) && es[i].state == Resolved {
      var i: nat, es1, did1 :| Opens(es, op.ip, op.dev, op.now, i, es1, did1) && Parks(es1, did1, i, op.p, es', did);
      if a in did1 && !Known(es, op.ip) && a in EvictionLog(es[i]) {
        EvictionDrops(es[i], a);
      }
    }
  }

  lemma HearSends(es: seq<Entry>, op: Op, es': seq<Entry>, did: seq<Action>, a: Action)
    requires op.Hear? && Step(es, op, es', did) && a in did && a.Leave? && a.fate.Sent?
    ensures op.f.spa == a.ip && op.f.sha == a.fate.mac && op.at.id == a.fate.dev
  {
    hide Victim, Leaves, EvictionLog, Bound, BoundLog;
    var merge :| Merges(es, op.at, op.f, op.now, es', merge) && did == merge + Answers(op.at, op.f);
    assert a in merge;
    if op.f.spa != 0 && Known(es, op.f.spa) {
      var i: nat :| Live(es, op.f.spa, i) && merge == BoundLog(es[i], op.at.id, op.f.sha);
      BoundSends(es[i], op.at.id, op.f.sha, a);
    } else {
      var i: nat :| i < |es| && merge == EvictionLog(es[i]);
      EvictionDrops(es[i], a);
    }
  }

  lemma JustifiedStill(ops: seq<Op>, op: Op, a: Action)
    requires Justified(ops, a)
    ensures Justified(ops + [op], a)
  {
    if a.Leave? && a.fate.Sent? {
      var m :| 0 <= m < |ops| && ops[m].Hear? && ops[m].f.spa == a.ip
        && ops[m].f.sha == a.fate.mac && ops[m].at.id == a.fate.dev;
      assert (ops + [op])[m] == ops[m];
    }
  }

  lemma JustifiedNow(ops: seq<Op>, op: Op, did: seq<Action>, a: Action)
    requires SendsOnly(op, did) && a in did
    ensures Justified(ops + [op], a)
  {
    assert (ops + [op])[|ops|] == op;
  }

  /** In every run, a parked packet is sent only to the address its next hop announced. */
  lemma {:induction false} SentWhereAnnounced(r: Run, n: nat, k: nat)
    requires r.Valid() && n <= |r.ops| && k < |r.logs[n]|
    ensures Justified(r.ops[..n], r.logs[n][k])
    decreases n
  {
    hide Step, Justified, SendsOnly;
    if n > 0 {
      var ops, op := r.ops[..n - 1], r.ops[n - 1];
      var did :| Step(r.caches[n - 1], op, r.caches[n], did) && r.logs[n] == r.logs[n - 1] + did;
      StepSends(r.caches[n - 1], op, r.caches[n], did);
      assert r.ops[..n] == ops + [op];
      if k < |r.logs[n - 1]| {
        SentWhereAnnounced(r, n - 1, k);
        JustifiedStill(ops, op, r.logs[n][k]);
      } else {
        assert r.logs[n][k] == did[k - |r.logs[n - 1]|];
        JustifiedNow(ops, op, did, r.logs[n][k]);
      }
    }
  }
}
