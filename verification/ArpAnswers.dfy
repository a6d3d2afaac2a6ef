/** What `arp_resolve` answers over whole runs, for how long, and how a neighbour that stays silent is given up. */
module ArpAnswers {
  import opened SeqSpace
  import opened Common
  import opened ArpSpec
  import opened Arp
  import opened ArpTheorems

  /** A well-formed frame that tells the address of `ip`. */
  predicate Tells(op: Op, ip: Word32) { op.Hear? && !Malformed(op.f) && op.f.spa == ip }

  /** What operation `k` told of `ip` still stands: nobody has told since, and no tick has come 60 seconds later. */
  predicate Stands(ops: seq<Op>, k: nat, ip: Word32) {
    && k < |ops| && Tells(ops[k], ip)
    && forall j :: k < j < |ops| ==> !Tells(ops[j], ip) && (ops[j].Tick? ==> ops[j].now < ops[k].now + TTL_MS)
  }

  /** Entry `e` holds what operation `k` told. */
  predicate ToldBy(ops: seq<Op>, k: nat, e: Entry) {
    && Stands(ops, k, e.ip)
    && e.mac == ops[k].f.sha && e.dev == ops[k].at.id && e.deadline == ops[k].now + TTL_MS
  }

  /** A resolved entry holds what the latest frame of its address has told. */
  ghost predicate Sourced(ops: seq<Op>, e: Entry) {
    e.state == Resolved ==> e.ip != 0 && exists k: nat :: ToldBy(ops, k, e)
  }

  /** How one operation can leave a resolved entry: as it was, or newly told. */
  predicate Kept(e: Entry, op: Op, e': Entry) {
    e'.state == Resolved ==>
      || (e' == e && !Tells(op, e.ip) && (op.Tick? ==> op.now < e.deadline))
      || (Tells(op, e'.ip) && e'.ip != 0 && e'.mac == op.f.sha && e'.dev == op.at.id && e'.deadline == op.now + TTL_MS)
  }

  lemma SourcedStill(ops: seq<Op>, op: Op, e: Entry, e': Entry)
    requires Sourced(ops, e) && Kept(e, op, e')
    ensures Sourced(ops + [op], e')
  {
    var ops' := ops + [op];
    if e'.state == Resolved {
      if Tells(op, e'.ip) {
        assert ops'[|ops|] == op && ToldBy(ops', |ops|, e');
      } else {
        var k: nat :| ToldBy(ops, k, e);
        assert ops'[k] == ops[k] && ToldBy(ops', k, e');
      }
    }
  }

  lemma ResolveKeeps(es: seq<Entry>, op: Op, es': seq<Entry>, did: seq<Action>, j: nat)
    requires op.Resolve? && Step(es, op, es', did) && j < |es|
    ensures |es'| == |es| && Kept(es[j], op, es'[j])
  {
    hide Victim, EvictionLog, QueuedLog;
    if !exists i: nat :: Live(es, op.ip, i) && es[i].state == Resolved {
      var i: nat, es1: seq<Entry>, did1 :| Opens(es, op.ip, op.dev, op.now, i, es1, did1)
        && Parks(es1, did1, i, op.p, es', did);
      assert i < |es| ==> es1[i].state != Resolved;
    }
  }

  lemma HearKeeps(es: seq<Entry>, op: Op, es': seq<Entry>, did: seq<Action>, j: nat)
    requires op.Hear? && Step(es, op, es', did) && j < |es| && Distinct(es)
    requires es[j].state == Resolved ==> es[j].ip != 0
    ensures |es'| == |es| && Kept(es[j], op, es'[j])
  {
    hide Victim, EvictionLog, BoundLog;
    if !Malformed(op.f) {
      var merge :| Merges(es, op.at, op.f, op.now, es', merge) && did == merge + Answers(op.at, op.f);
      if es[j].state != Free && op.f.spa == es[j].ip {
        assert Live(es, op.f.spa, j);
      }
    }
  }

  lemma StepKeeps(es: seq<Entry>, op: Op, es': seq<Entry>, did: seq<Action>, j: nat)
    requires Step(es, op, es', did) && j < |es| && Distinct(es) && (es[j].state == Resolved ==> es[j].ip != 0)
    ensures |es'| == |es| && Kept(es[j], op, es'[j])
  {
    hide Resolves, Hears, TickedLog;
    match op
    case Resolve(_, _, _, _, _) => ResolveKeeps(es, op, es', did, j);
    case Hear(_, _, _) => HearKeeps(es, op, es', did, j);
    case Tick(now) =>
  }

  lemma {:induction false} RunSourced(r: Run, n: nat, j: nat)
    requires r.Valid() && n <= |r.ops| && j < CACHE_SIZE
    ensures |r.caches[n]| == CACHE_SIZE && Sourced(r.ops[..n], r.caches[n][j])
    decreases n
  {
    hide Step, Kept, ToldBy, QueueInv, AskInv;
    RunInv(r, n);
    if n > 0 {
      RunSourced(r, n - 1, j);
      RunInv(r, n - 1);
      var op := r.ops[n - 1];
      var did :| Step(r.caches[n - 1], op, r.caches[n], did) && r.logs[n] == r.logs[n - 1] + did;
      StepKeeps(r.caches[n - 1], op, r.caches[n], did, j);
      SourcedStill(r.ops[..n - 1], op, r.caches[n - 1][j], r.caches[n][j]);
      assert r.ops[..n] == r.ops[..n - 1] + [op];
    }
  }

  lemma StepOf(r: Run, n: nat) returns (did: seq<Action>)
    requires r.Valid() && n < |r.ops|
    ensures Step(r.caches[n], r.ops[n], r.caches[n + 1], did) && r.logs[n + 1] == r.logs[n] + did
  {
    hide Step;
    did :| Step(r.caches[n], r.ops[n], r.caches[n + 1], did) && r.logs[n + 1] == r.logs[n] + did;
  }

  /** An answer is that of the one resolved entry. */
  lemma AnswerIsHeld(es: seq<Entry>, op: Op, es': seq<Entry>, did: seq<Action>) returns (i: nat)
    requires Distinct(es) && op.Resolve? && op.ans.Some? && Step(es, op, es', did)
    ensures Live(es, op.ip, i) && es[i].state == Resolved && op.ans == Some(es[i].mac)
  {
    hide Opens, Parks;
    i :| Live(es, op.ip, i) && op.ans == Some(es[i].mac);
    var j: nat :| Live(es, op.ip, j) && es[j].state == Resolved;
    LiveUnique(es, op.ip, i, j);
  }

  lemma InvDistinct(es: seq<Entry>, log: seq<Action>)
    requires Inv(es, log)
    ensures |es| == CACHE_SIZE && Distinct(es)
  {
  }

  lemma PrefixStands(ops: seq<Op>, n: nat, k: nat, ip: Word32)
    requires n <= |ops| && Stands(ops[..n], k, ip)
    ensures k < n && ops[k] == ops[..n][k] && ops[k].Hear?
  {
  }

  /**
   * In every run, an answer of `arp_resolve` is the sender address of the latest well-formed frame from that
   * neighbour, and no tick has come 60 seconds or more after it.
   */
  lemma AnswersAsTold(r: Run, n: nat) returns (k: nat)
    requires r.Valid() && n < |r.ops| && r.ops[n].Resolve? && r.ops[n].ans.Some?
    ensures k < n && Stands(r.ops[..n], k, r.ops[n].ip) && r.ops[k].f.sha == r.ops[n].ans.value
  {
    hide Stands, Step, Inv;
    RunInv(r, n);
    InvDistinct(r.caches[n], r.logs[n]);
    var did := StepOf(r, n);
    var i := AnswerIsHeld(r.caches[n], r.ops[n], r.caches[n + 1], did);
    RunSourced(r, n, i);
    k :| ToldBy(r.ops[..n], k, r.caches[n][i]);
    PrefixStands(r.ops, n, k, r.ops[n].ip);
  }

  // ---------------------------------------------------------------- and it does answer

  ghost predicate HasFree(es: seq<Entry>) { exists i :: 0 <= i < |es| && es[i].state == Free }

  /** Entry `i` answers for `ip` what operation `k` told. */
  predicate Holds(es: seq<Entry>, ip: Word32, i: nat, told: Op) {
    && Live(es, ip, i) && es[i].state == Resolved && told.Hear?
    && es[i].mac == told.f.sha && es[i].deadline == told.now + TTL_MS
  }

  /** What a frame for us, or from a neighbour already in the cache, tells is taken. */
  lemma ToldIsTaken(es: seq<Entry>, op: Op, es': seq<Entry>, did: seq<Action>) returns (i: nat)
    requires op.Hear? && !Malformed(op.f) && op.f.spa != 0 && (ForUs(op.at, op.f) || Known(es, op.f.spa))
    requires Step(es, op, es', did)
    ensures Holds(es', op.f.spa, i, op)
  {
    hide Victim, EvictionLog, BoundLog;
    var merge :| Merges(es, op.at, op.f, op.now, es', merge) && did == merge + Answers(op.at, op.f);
    if Known(es, op.f.spa) {
      i :| Live(es, op.f.spa, i) && es' == es[i := Bound(es[i], op.at.id, op.f.sha, op.now)];
    } else {
      i :| i < |es| && Victim(es, i)
        && es' == es[i := Bound(Emptied(es[i]).(ip := op.f.spa), op.at.id, op.f.sha, op.now)];
    }
  }

  lemma HoldsStill(es: seq<Entry>, op: Op, es': seq<Entry>, did: seq<Action>, ip: Word32, i: nat, told: Op)
    requires Holds(es, ip, i, told) && Distinct(es) && HasFree(es) && Step(es, op, es', did)
    requires !Tells(op, ip) && (op.Tick? ==> op.now < told.now + TTL_MS)
    ensures Holds(es', ip, i, told)
  {
    hide EvictionLog, BoundLog, QueuedLog, TickedLog, Malformed;
    match op
    case Resolve(other, dev, p, now, ans) =>
      if !exists j: nat :: Live(es, other, j) && es[j].state == Resolved {
        var j: nat, es1: seq<Entry>, did1 :| Opens(es, other, dev, now, j, es1, did1)
          && Parks(es1, did1, j, p, es', did);
        assert j != i;
      }
    case Hear(dev, f, now) =>
      if !Malformed(f) {
        var merge :| Merges(es, dev, f, now, es', merge) && did == merge + Answers(dev, f);
      }
    case Tick(now) =>
  }

  /**
   * In every run: what a frame for us, or from a neighbour in the cache, has told is what `arp_resolve` answers
   * until the neighbour tells again, 60 seconds are over, or the cache fills up.
   */
  lemma {:induction false} ToldIsHeld(r: Run, k: nat, n: nat, ip: Word32) returns (i: nat)
    requires r.Valid() && k < n <= |r.ops| && Tells(r.ops[k], ip) && ip != 0
    requires ForUs(r.ops[k].at, r.ops[k].f) || Known(r.caches[k], ip)
    requires forall j :: k < j < n ==>
      !Tells(r.ops[j], ip) && (r.ops[j].Tick? ==> r.ops[j].now < r.ops[k].now + TTL_MS) && HasFree(r.caches[j])
    ensures Holds(r.caches[n], ip, i, r.ops[k])
    decreases n
  {
    hide Step, Holds, HasFree, Inv, Malformed;
    var did := StepOf(r, n - 1);
    if n == k + 1 {
      i := ToldIsTaken(r.caches[k], r.ops[k], r.caches[n], did);
    } else {
      i := ToldIsHeld(r, k, n - 1, ip);
      RunInv(r, n - 1);
      InvDistinct(r.caches[n - 1], r.logs[n - 1]);
      HoldsStill(r.caches[n - 1], r.ops[n - 1], r.caches[n], did, ip, i, r.ops[k]);
    }
  }

  lemma HeldIsAnswered(es: seq<Entry>, op: Op, es': seq<Entry>, did: seq<Action>, i: nat, told: Op)
    requires op.Resolve? && Distinct(es) && Holds(es, op.ip, i, told) && Step(es, op, es', did)
    ensures op.ans == Some(told.f.sha)
  {
    hide Opens, Parks;
    var j: nat :| Live(es, op.ip, j) && op.ans == Some(es[j].mac);
    LiveUnique(es, op.ip, i, j);
  }

  lemma ToldIsAnswered(r: Run, k: nat, n: nat, ip: Word32)
    requires r.Valid() && k < n < |r.ops| && Tells(r.ops[k], ip) && ip != 0
    requires ForUs(r.ops[k].at, r.ops[k].f) || Known(r.caches[k], ip)
    requires forall j :: k < j < n ==>
      !Tells(r.ops[j], ip) && (r.ops[j].Tick? ==> r.ops[j].now < r.ops[k].now + TTL_MS) && HasFree(r.caches[j])
    requires r.ops[n].Resolve? && r.ops[n].ip == ip
    ensures r.ops[n].ans == Some(r.ops[k].f.sha)
  {
    hide Step, Inv, HasFree, Malformed, Holds;
    var i := ToldIsHeld(r, k, n, ip);
    RunInv(r, n);
    InvDistinct(r.caches[n], r.logs[n]);
    var did := StepOf(r, n);
    HeldIsAnswered(r.caches[n], r.ops[n], r.caches[n + 1], did, i, r.ops[k]);
  }

  // ---------------------------------------------------------------- a neighbour that stays silent

  /** A resolution that is open: entry `i` waits for `ip`, having asked as often as the history says. */
  ghost predicate Open(es: seq<Entry>, log: seq<Action>, ip: Word32, i: nat) {
    Live(es, ip, i) && es[i].state == Pending && Asked(log, ip) == es[i].tries
  }

  lemma PendingIsOpen(es: seq<Entry>, log: seq<Action>, i: nat)
    requires Inv(es, log) && i < |es| && es[i].state == Pending
    ensures Open(es, log, es[i].ip, i) && 1 <= es[i].tries <= MAX_TRIES
  {
    hide Asked, QueueInv;
    assert EntryInv(es[i]);
  }

  lemma AskOpens(es: seq<Entry>, op: Op, es': seq<Entry>, did: seq<Action>) returns (i: nat)
    requires op.Resolve? && !Known(es, op.ip) && Step(es, op, es', did)
    ensures Live(es', op.ip, i) && es'[i].state == Pending && es'[i].tries == 1 && es'[i].deadline == op.now + RETRY_MS
  {
    hide Victim, EvictionLog, QueuedLog;
    var es1: seq<Entry>, did1: seq<Action>;
    i, es1, did1 :| Opens(es, op.ip, op.dev, op.now, i, es1, did1) && Parks(es1, did1, i, op.p, es', did);
  }

  /** In every run, the first call for an unknown neighbour asks once and waits one second. */
  lemma FirstAsk(r: Run, n: nat) returns (i: nat)
    requires r.Valid() && n < |r.ops| && r.ops[n].Resolve? && !Known(r.caches[n], r.ops[n].ip)
    ensures Open(r.caches[n + 1], r.logs[n + 1], r.ops[n].ip, i) && Asked(r.logs[n + 1], r.ops[n].ip) == 1
    ensures r.caches[n + 1][i].deadline == r.ops[n].now + RETRY_MS
  {
    hide Step, Inv, Known, Asked;
    var did := StepOf(r, n);
    i := AskOpens(r.caches[n], r.ops[n], r.caches[n + 1], did);
    RunInv(r, n + 1);
    PendingIsOpen(r.caches[n + 1], r.logs[n + 1], i);
  }

  lemma NobodyWaits(es: seq<Entry>, log: seq<Action>, ip: Word32)
    requires Inv(es, log) && !Known(es, ip)
    ensures Waiting(log, ip) == Some([])
  {
    hide Waiting, AskInv;
  }

  lemma GoneIsUnknown(es: seq<Entry>, now: nat, i: nat)
    requires Distinct(es) && i < |es| && es[i].state != Free && Ticked(es, now, |es|)[i].state == Free
    ensures !Known(Ticked(es, now, |es|), es[i].ip)
  {
    var es' := Ticked(es, now, |es|);
    forall j: nat | Live(es', es[i].ip, j)
      ensures false
    {
      assert Live(es, es[i].ip, j) && j != i;
      LiveUnique(es, es[i].ip, i, j);
    }
  }

  /**
   * In every run, a tick that finds a resolution overdue asks once more and waits another second; after the
   * third time it gives the address up, and nothing waits for it any longer. An earlier tick does neither.
   */
  lemma SilentIsGivenUp(r: Run, n: nat, ip: Word32, i: nat)
    requires r.Valid() && n < |r.ops| && r.ops[n].Tick? && Live(r.caches[n], ip, i) && r.caches[n][i].state == Pending
    ensures var e, now, asked := r.caches[n][i], r.ops[n].now, Asked(r.logs[n], ip);
      if now < e.deadline then
        Open(r.caches[n + 1], r.logs[n + 1], ip, i) && r.caches[n + 1][i] == e && Asked(r.logs[n + 1], ip) == asked
      else if asked < MAX_TRIES then
        && Open(r.caches[n + 1], r.logs[n + 1], ip, i) && Asked(r.logs[n + 1], ip) == asked + 1
        && r.caches[n + 1][i].waitq == e.waitq && r.caches[n + 1][i].deadline == now + RETRY_MS
      else !Known(r.caches[n + 1], ip) && Waiting(r.logs[n + 1], ip) == Some([])
  {
    hide Waiting, Asked, TickedLog, Inv, Known, Distinct;
    var es, es', now := r.caches[n], r.caches[n + 1], r.ops[n].now;
    var did := StepOf(r, n);
    RunInv(r, n);
    RunInv(r, n + 1);
    InvDistinct(es, r.logs[n]);
    PendingIsOpen(es, r.logs[n], i);
    if es'[i].state == Pending {
      PendingIsOpen(es', r.logs[n + 1], i);
    } else {
      GoneIsUnknown(es, now, i);
      NobodyWaits(es', r.logs[n + 1], ip);
    }
  }

  // ---------------------------------------------------------------- what becomes of parked packets

  lemma {:induction false} LeavesInOrder(ip: Word32, q: seq<Packet>, fate: Fate, k: nat)
    requires k < |q|
    ensures |Leaves(ip, q, fate)| == |q| && Leaves(ip, q, fate)[k] == Leave(ip, q[k], fate)
    decreases |q|
  {
    if |q| > 1 {
      LeavesInOrder(ip, q[1..], fate, if k > 0 then k - 1 else 0);
    }
  }

  lemma ToldEmpties(es: seq<Entry>, op: Op, es': seq<Entry>, did: seq<Action>, ip: Word32, i: nat)
    requires Distinct(es) && Live(es, ip, i) && es[i].state == Pending && Tells(op, ip) && ip != 0
    requires Step(es, op, es', did)
    ensures Live(es', ip, i) && es'[i].waitq == []
    ensures Leaves(ip, es[i].waitq, Sent(op.at.id, op.f.sha)) <= did
  {
    hide Leaves;
    var merge :| Merges(es, op.at, op.f, op.now, es', merge) && did == merge + Answers(op.at, op.f);
    var j: nat :| Live(es, ip, j) && es' == es[j := Bound(es[j], op.at.id, op.f.sha, op.now)]
      && merge == BoundLog(es[j], op.at.id, op.f.sha);
    LiveUnique(es, ip, i, j);
  }

  /** In every run, all that waits for a neighbour is sent, in order, on the first frame that tells its address. */
  lemma ResolutionSends(r: Run, n: nat, ip: Word32, i: nat, k: nat)
    requires r.Valid() && n < |r.ops| && Live(r.caches[n], ip, i) && r.caches[n][i].state == Pending
    requires Tells(r.ops[n], ip) && ip != 0 && k < |r.caches[n][i].waitq|
    ensures |r.logs[n]| + k < |r.logs[n + 1]|
    ensures r.logs[n + 1][|r.logs[n]| + k] ==
      Leave(ip, r.caches[n][i].waitq[k], Sent(r.ops[n].at.id, r.ops[n].f.sha))
    ensures Waiting(r.logs[n + 1], ip) == Some([])
  {
    hide Step, Inv, Waiting, Leaves, Malformed;
    RunInv(r, n);
    InvDistinct(r.caches[n], r.logs[n]);
    var did := StepOf(r, n);
    ToldEmpties(r.caches[n], r.ops[n], r.caches[n + 1], did, ip, i);
    LeavesInOrder(ip, r.caches[n][i].waitq, Sent(r.ops[n].at.id, r.ops[n].f.sha), k);
    PacketsConserved(r, n + 1, ip);
  }

  /** In every run, a packet parked while fewer than eight wait displaces none of them. */
  lemma RoomKeepsAll(r: Run, n: nat, i: nat)
    requires r.Valid() && n < |r.ops| && r.ops[n].Resolve? && r.ops[n].p.Some? && Live(r.caches[n], r.ops[n].ip, i)
    requires r.caches[n][i].state == Pending && |r.caches[n][i].waitq| < WAITQ_MAX
    ensures Waiting(r.logs[n + 1], r.ops[n].ip) == Some(r.caches[n][i].waitq + [r.ops[n].p.value])
  {
    hide Step, Inv, Waiting;
    RunInv(r, n);
    InvDistinct(r.caches[n], r.logs[n]);
    var did := StepOf(r, n);
    RoomParks(r.caches[n], r.ops[n], r.caches[n + 1], did, i);
    PacketsConserved(r, n + 1, r.ops[n].ip);
  }

  lemma RoomParks(es: seq<Entry>, op: Op, es': seq<Entry>, did: seq<Action>, i: nat)
    requires Distinct(es) && op.Resolve? && op.p.Some? && Step(es, op, es', did) && Live(es, op.ip, i)
    requires es[i].state == Pending && |es[i].waitq| < WAITQ_MAX
    ensures Live(es', op.ip, i) && es'[i].waitq == es[i].waitq + [op.p.value]
  {
    hide QueuedLog;
    forall j: nat | Live(es, op.ip, j) ensures es[j].state != Resolved { LiveUnique(es, op.ip, i, j); }
    var j: nat, es1: seq<Entry>, did1 :| Opens(es, op.ip, op.dev, op.now, j, es1, did1)
      && Parks(es1, did1, j, op.p, es', did);
    LiveUnique(es, op.ip, i, j);
  }

  // ---------------------------------------------------------------- replies

  lemma OnlyHearReplies(es: seq<Entry>, op: Op, es': seq<Entry>, did: seq<Action>, a: Action)
    requires !op.Hear? && Step(es, op, es', did) && a in did
    ensures !a.Reply?
  {
    hide Victim, Queued, Asking, EvictionLog, Ticked;
    if op.Tick? {
      TickReplies(es, op.now, |es|, a);
    } else if !exists i: nat :: Live(es, op.ip, i) && es[i].state == Resolved {
      var i: nat, es1: seq<Entry>, did1 :| Opens(es, op.ip, op.dev, op.now, i, es1, did1)
        && Parks(es1, did1, i, op.p, es', did);
      if a in did1 && !Known(es, op.ip) && a in EvictionLog(es[i]) {
        EvictionDrops(es[i], a);
      }
    }
  }

  lemma {:induction false} TickReplies(es: seq<Entry>, now: nat, n: nat, a: Action)
    requires n <= |es| && a in TickedLog(es, now, n)
    ensures !a.Reply?
    decreases n
  {
    if a in TickedLog(es, now, n - 1) {
      TickReplies(es, now, n - 1, a);
    } else {
      var e := es[n - 1];
      if a in Leaves(e.ip, e.waitq, Dropped) {
        LeavesAre(e.ip, e.waitq, Dropped, a);
      }
    }
  }

  lemma HearReplies(es: seq<Entry>, op: Op, es': seq<Entry>, did: seq<Action>, j: nat)
    requires op.Hear? && Step(es, op, es', did) && j < |did|
    ensures did[j].Reply? <==> j == |did| - 1 && !Malformed(op.f) && ForUs(op.at, op.f) && op.f.op == OP_REQUEST
    ensures did[j].Reply? ==> did[j] == Reply(op.f.spa, op.at.id, op.f.sha)
  {
    hide Victim, Leaves, EvictionLog, Bound, BoundLog;
    var merge :| Merges(es, op.at, op.f, op.now, es', merge) && did == merge + Answers(op.at, op.f);
    if j < |merge| {
      if op.f.spa != 0 && Known(es, op.f.spa) {
        var i: nat :| Live(es, op.f.spa, i) && merge == BoundLog(es[i], op.at.id, op.f.sha);
        BoundSends(es[i], op.at.id, op.f.sha, merge[j]);
      } else {
        var i: nat :| i < |es| && merge == EvictionLog(es[i]);
        EvictionDrops(es[i], merge[j]);
      }
    }
  }

  /** In every run, each well-formed request for us is answered to its sender, once, and nothing else is. */
  lemma RequestsAreAnswered(r: Run, n: nat, j: nat)
    requires r.Valid() && n < |r.ops|
    ensures var op := r.ops[n];
      op.Hear? && !Malformed(op.f) && ForUs(op.at, op.f) && op.f.op == OP_REQUEST ==>
        |r.logs[n + 1]| > |r.logs[n]| && r.logs[n + 1][|r.logs[n + 1]| - 1] == Reply(op.f.spa, op.at.id, op.f.sha)
    ensures |r.logs[n]| <= j < |r.logs[n + 1]| && r.logs[n + 1][j].Reply? ==>
      && j == |r.logs[n + 1]| - 1 && r.ops[n].Hear? && !Malformed(r.ops[n].f)
      && ForUs(r.ops[n].at, r.ops[n].f) && r.ops[n].f.op == OP_REQUEST
  {
    hide Step, Malformed, ForUs;
    var did := StepOf(r, n);
    var op, m := r.ops[n], |r.logs[n]|;
    if m <= j < m + |did| {
      assert r.logs[n + 1][j] == did[j - m];
      if op.Hear? {
        HearReplies(r.caches[n], op, r.caches[n + 1], did, j - m);
      } else {
        OnlyHearReplies(r.caches[n], op, r.caches[n + 1], did, did[j - m]);
      }
    }
    if op.Hear? {
      RequestActs(r.caches[n], op, r.caches[n + 1], did);
      if did != [] {
        HearReplies(r.caches[n], op, r.caches[n + 1], did, |did| - 1);
      }
    }
  }

  lemma RequestActs(es: seq<Entry>, op: Op, es': seq<Entry>, did: seq<Action>)
    requires op.Hear? && Step(es, op, es', did)
    ensures !Malformed(op.f) && ForUs(op.at, op.f) && op.f.op == OP_REQUEST ==> did != []
  {
    hide Merges, Malformed, ForUs;
  }
}
