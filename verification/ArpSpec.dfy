/** The ARP cache (src/arp/arp.c) on values: its entries, what each operation does, and a history of parked packets. */
module ArpSpec {
  import opened SeqSpace
  import opened Common

  const CACHE_SIZE: nat := 64
  const TTL_MS: nat := 60000
  const RETRY_MS: nat := 1000
  const MAX_TRIES: nat := 3
  const WAITQ_MAX: nat := 8

  datatype State = Free | Pending | Resolved

  /** A packet stands for itself. */
  type Packet = nat
  type Mac = seq<byte>

  datatype Entry = Entry(state: State, ip: Word32, mac: Mac, tries: nat, dev: nat, deadline: nat, waitq: seq<Packet>)

  const CLEARED := Entry(Free, 0, [0, 0, 0, 0, 0, 0], 0, 0, 0, [])

  // ---------------------------------------------------------------- history

  datatype Fate = Sent(dev: nat, mac: Mac) | Dropped

  datatype Action =
    | Begin(ip: Word32)
    | Request(ip: Word32, dev: nat)
    | Reply(ip: Word32, dev: nat, mac: Mac)
    | Park(ip: Word32, packet: Packet)
    | Leave(ip: Word32, packet: Packet, fate: Fate)

  /**
   * The packets waiting for `ip` after a history, as a queue: they leave in the order they were parked,
   * each once. `None` if the history breaks that rule.
   */
  function Waiting(log: seq<Action>, ip: Word32): Option<seq<Packet>> {
    if log == [] then Some([])
    else
      var q, a := Waiting(log[..|log| - 1], ip), log[|log| - 1];
      if q.None? || a.ip != ip then q
      else match a
        case Park(_, p) => Some(q.value + [p])
        case Leave(_, p, _) => if q.value != [] && q.value[0] == p then Some(q.value[1..]) else None
        case _ => q
  }

  /** The requests sent for `ip` since the last resolution of it began. */
  function Asked(log: seq<Action>, ip: Word32): nat {
    if log == [] then 0
    else
      var n, a := Asked(log[..|log| - 1], ip), log[|log| - 1];
      if a.ip != ip then n else if a.Begin? then 0 else if a.Request? then n + 1 else n
  }

  function ParkedIn(log: seq<Action>, ip: Word32): seq<Packet> {
    if log == [] then []
    else
      var a := log[|log| - 1];
      ParkedIn(log[..|log| - 1], ip) + if a.Park? && a.ip == ip then [a.packet] else []
  }

  function LeftIn(log: seq<Action>, ip: Word32): seq<Packet> {
    if log == [] then []
    else
      var a := log[|log| - 1];
      LeftIn(log[..|log| - 1], ip) + if a.Leave? && a.ip == ip then [a.packet] else []
  }

  /**
   * Conservation: in a history that keeps the rule, the packets parked for an address are, in that very
   * order, those that have left (sent or dropped) followed by those that still wait.
   */
  lemma {:induction false} Conservation(log: seq<Action>, ip: Word32)
    requires Waiting(log, ip).Some?
    ensures ParkedIn(log, ip) == LeftIn(log, ip) + Waiting(log, ip).value
    decreases |log|
  {
    if log != [] {
      Conservation(log[..|log| - 1], ip);
    }
  }

  lemma Extend(log: seq<Action>, a: Action)
    ensures (log + [a])[..|log| + 1 - 1] == log && (log + [a])[|log|] == a
  {
  }

  lemma AskedMore(log: seq<Action>, a: Action, ip: Word32)
    ensures Asked(log + [a], ip) ==
      if a.ip != ip then Asked(log, ip) else if a.Begin? then 0
      else if a.Request? then Asked(log, ip) + 1 else Asked(log, ip)
  {
    Extend(log, a);
  }

  // ---------------------------------------------------------------- entries

  predicate Live(es: seq<Entry>, ip: Word32, i: nat) {
    i < |es| && es[i].state != Free && es[i].ip == ip
  }

  ghost predicate Known(es: seq<Entry>, ip: Word32) { exists i: nat :: Live(es, ip, i) }

  predicate Distinct(es: seq<Entry>) {
    forall i, j :: 0 <= i < j < |es| && es[i].state != Free && es[j].state != Free ==> es[i].ip != es[j].ip
  }

  /** Only pending entries hold packets, at most 8, and they have asked one to three times. */
  predicate EntryInv(e: Entry) {
    if e.state == Pending then |e.waitq| <= WAITQ_MAX && 1 <= e.tries <= MAX_TRIES else e.waitq == []
  }

  /** The history agrees with the wait queues. */
  ghost predicate QueueInv(es: seq<Entry>, log: seq<Action>) {
    && (forall i :: 0 <= i < |es| && es[i].state != Free ==> Waiting(log, es[i].ip) == Some(es[i].waitq))
    && (forall ip: Word32 :: !Known(es, ip) ==> Waiting(log, ip) == Some([]))
  }

  /** No resolution asks more than three times. */
  ghost predicate AskInv(es: seq<Entry>, log: seq<Action>) {
    && (forall ip: Word32 :: Asked(log, ip) <= MAX_TRIES)
    && (forall i :: 0 <= i < |es| && es[i].state == Pending ==> Asked(log, es[i].ip) == es[i].tries)
  }

  /** What every operation keeps. */
  ghost predicate Inv(es: seq<Entry>, log: seq<Action>) {
    |es| == CACHE_SIZE && Distinct(es) && (forall i :: 0 <= i < |es| ==> EntryInv(es[i]))
    && QueueInv(es, log) && AskInv(es, log)
  }

  // ---------------------------------------------------------------- small steps

  /** Changing an entry in place, its address and liveness kept, moves only its own queue. */
  lemma QueueStep(es: seq<Entry>, log: seq<Action>, i: nat, e: Entry, log': seq<Action>)
    requires Distinct(es) && QueueInv(es, log) && i < |es| && es[i].state != Free && e.state != Free && e.ip == es[i].ip
    requires Waiting(log', e.ip) == Some(e.waitq)
    requires forall ip: Word32 :: ip != e.ip ==> Waiting(log', ip) == Waiting(log, ip)
    ensures Distinct(es[i := e]) && QueueInv(es[i := e], log')
  {
    var es' := es[i := e];
    assert Live(es', e.ip, i);
    forall ip: Word32 | !Known(es', ip)
      ensures Waiting(log', ip) == Some([])
    {
      forall j: nat
        ensures !Live(es, ip, j)
      {
        assert !Live(es', ip, j);
      }
    }
  }

  /** Taking an entry with an empty queue out of the cache. */
  lemma QueueRetire(es: seq<Entry>, log: seq<Action>, i: nat, e: Entry)
    requires Distinct(es) && QueueInv(es, log) && i < |es| && (es[i].state != Free ==> es[i].waitq == [])
    requires e.state == Free
    ensures Distinct(es[i := e]) && QueueInv(es[i := e], log)
  {
    var es' := es[i := e];
    forall ip: Word32 | !Known(es', ip)
      ensures Waiting(log, ip) == Some([])
    {
      if !Live(es, ip, i) {
        forall j: nat
          ensures !Live(es, ip, j)
        {
          assert !Live(es', ip, j);
        }
      }
    }
  }

  /** Bringing in an entry for an address not in the cache. */
  lemma QueueAdmit(es: seq<Entry>, log: seq<Action>, i: nat, e: Entry)
    requires Distinct(es) && QueueInv(es, log) && i < |es| && es[i].state == Free && !Known(es, e.ip)
    requires e.state != Free && e.waitq == []
    ensures Distinct(es[i := e]) && QueueInv(es[i := e], log)
  {
    var es' := es[i := e];
    forall j | 0 <= j < |es| && j != i && es[j].state != Free
      ensures es[j].ip != e.ip
    {
      assert !Live(es, e.ip, j);
    }
    forall ip: Word32 | !Known(es', ip)
      ensures Waiting(log, ip) == Some([])
    {
      assert !Live(es', ip, i);
      forall j: nat
        ensures !Live(es, ip, j)
      {
        assert !Live(es', ip, j);
      }
    }
  }

  /** One packet leaves from the head of the queue of entry `i`. */
  lemma PopKeeps(es: seq<Entry>, log: seq<Action>, i: nat, fate: Fate)
    requires Distinct(es) && QueueInv(es, log) && i < |es| && es[i].state != Free && es[i].waitq != []
    ensures var es' := es[i := es[i].(waitq := es[i].waitq[1..])];
      Distinct(es') && QueueInv(es', log + [Leave(es[i].ip, es[i].waitq[0], fate)])
  {
    var a := Leave(es[i].ip, es[i].waitq[0], fate);
    Extend(log, a);
    QueueStep(es, log, i, es[i].(waitq := es[i].waitq[1..]), log + [a]);
  }

  /** One packet joins it at the tail. */
  lemma PushKeeps(es: seq<Entry>, log: seq<Action>, i: nat, p: Packet)
    requires Distinct(es) && QueueInv(es, log) && i < |es| && es[i].state != Free
    ensures var es' := es[i := es[i].(waitq := es[i].waitq + [p])];
      Distinct(es') && QueueInv(es', log + [Park(es[i].ip, p)])
  {
    var a := Park(es[i].ip, p);
    Extend(log, a);
    QueueStep(es, log, i, es[i].(waitq := es[i].waitq + [p]), log + [a]);
  }

  /** Requests and replies move no packet. */
  lemma OtherKeeps(es: seq<Entry>, log: seq<Action>, a: Action)
    requires QueueInv(es, log) && !a.Park? && !a.Leave?
    ensures QueueInv(es, log + [a])
  {
    Extend(log, a);
    forall ip: Word32
      ensures Waiting(log + [a], ip) == Waiting(log, ip)
    {
    }
  }

  // ---------------------------------------------------------------- operations on an entry

  /** A whole queue leaves, head first. */
  function Leaves(ip: Word32, q: seq<Packet>, fate: Fate): seq<Action> {
    if q == [] then [] else [Leave(ip, q[0], fate)] + Leaves(ip, q[1..], fate)
  }

  lemma {:induction false} DrainKeeps(es: seq<Entry>, log: seq<Action>, i: nat, fate: Fate)
    requires Distinct(es) && QueueInv(es, log) && i < |es| && es[i].state != Free
    ensures var es' := es[i := es[i].(waitq := [])];
      Distinct(es') && QueueInv(es', log + Leaves(es[i].ip, es[i].waitq, fate))
    decreases |es[i].waitq|
  {
    hide Distinct, QueueInv, Waiting;
    var e := es[i];
    if e.waitq == [] {
      assert es[i := e.(waitq := [])] == es && log + Leaves(e.ip, e.waitq, fate) == log;
    } else {
      PopKeeps(es, log, i, fate);
      var es1, a := es[i := e.(waitq := e.waitq[1..])], Leave(e.ip, e.waitq[0], fate);
      DrainKeeps(es1, log + [a], i, fate);
      assert es1[i := es1[i].(waitq := [])] == es[i := e.(waitq := [])];
      assert log + [a] + Leaves(e.ip, e.waitq[1..], fate) == log + Leaves(e.ip, e.waitq, fate);
    }
  }

  lemma {:induction false} LeavesAskNothing(log: seq<Action>, ip: Word32, q: seq<Packet>, fate: Fate, other: Word32)
    ensures Asked(log + Leaves(ip, q, fate), other) == Asked(log, other)
    decreases |q|
  {
    hide Asked;
    if q == [] {
      assert log + Leaves(ip, q, fate) == log;
    } else {
      var a := Leave(ip, q[0], fate);
      AskedMore(log, a, other);
      LeavesAskNothing(log + [a], ip, q[1..], fate, other);
      assert log + [a] + Leaves(ip, q[1..], fate) == log + Leaves(ip, q, fate);
    }
  }

  /** The slot `arp_alloc_entry` takes: the first free one, else the first with the earliest deadline. */
  predicate Victim(es: seq<Entry>, i: nat) {
    && i < |es|
    && if es[i].state == Free then forall j :: 0 <= j < i ==> es[j].state != Free
      else
        && (forall j :: 0 <= j < |es| ==> es[j].state != Free && es[i].deadline <= es[j].deadline)
        && (forall j :: 0 <= j < i ==> es[i].deadline < es[j].deadline)
  }

  function Emptied(e: Entry): Entry { if e.state == Free then e else CLEARED }

  function EvictionLog(e: Entry): seq<Action> {
    if e.state == Free then [] else Leaves(e.ip, e.waitq, Dropped)
  }

  lemma EvictInv(es: seq<Entry>, log: seq<Action>, i: nat)
    requires Inv(es, log) && i < |es|
    ensures Inv(es[i := Emptied(es[i])], log + EvictionLog(es[i]))
    ensures forall ip: Word32 :: !Known(es, ip) ==> !Known(es[i := Emptied(es[i])], ip)
  {
    hide Waiting, Asked, Leaves, QueueInv;
    var es' := es[i := Emptied(es[i])];
    forall ip: Word32, j: nat | Live(es', ip, j)
      ensures Live(es, ip, j)
    {
    }
    if es[i].state == Free {
      assert es' == es && log + EvictionLog(es[i]) == log;
    } else {
      var e := es[i];
      DrainKeeps(es, log, i, Dropped);
      var es1, log' := es[i := e.(waitq := [])], log + Leaves(e.ip, e.waitq, Dropped);
      QueueRetire(es1, log', i, CLEARED);
      assert es1[i := CLEARED] == es';
      forall ip: Word32
        ensures Asked(log', ip) == Asked(log, ip)
      {
        LeavesAskNothing(log, e.ip, e.waitq, Dropped, ip);
      }
    }
  }

  /** `arp_entry_resolve`. */
  function Bound(e: Entry, dev: nat, mac: Mac, now: nat): Entry {
    e.(state := Resolved, mac := mac, dev := dev, deadline := now + TTL_MS, tries := 0,
       waitq := if e.state == Pending then [] else e.waitq)
  }

  function BoundLog(e: Entry, dev: nat, mac: Mac): seq<Action> {
    if e.state == Pending then Leaves(e.ip, e.waitq, Sent(dev, mac)) else []
  }

  lemma BoundInv(es: seq<Entry>, log: seq<Action>, i: nat, dev: nat, mac: Mac, now: nat)
    requires Inv(es, log) && i < |es| && es[i].state != Free
    ensures Inv(es[i := Bound(es[i], dev, mac, now)], log + BoundLog(es[i], dev, mac))
  {
    hide Waiting, Asked, Leaves, QueueInv;
    var e := es[i];
    var es', log' := es[i := Bound(e, dev, mac, now)], log + BoundLog(e, dev, mac);
    DrainKeeps(es, log, i, Sent(dev, mac));
    assert Leaves(e.ip, [], Sent(dev, mac)) == [] by { NoLeaves(e.ip, Sent(dev, mac)); }
    assert log' == log + Leaves(e.ip, e.waitq, Sent(dev, mac));
    var es1 := es[i := e.(waitq := [])];
    QueueSame(es1, log', i, Bound(e, dev, mac, now));
    assert es1[i := Bound(e, dev, mac, now)] == es';
    forall ip: Word32
      ensures Asked(log', ip) == Asked(log, ip)
    {
      LeavesAskNothing(log, e.ip, e.waitq, Sent(dev, mac), ip);
    }
  }

  lemma NoLeaves(ip: Word32, fate: Fate)
    ensures Leaves(ip, [], fate) == []
  {
  }

  lemma QueueSame(es: seq<Entry>, log: seq<Action>, i: nat, e: Entry)
    requires Distinct(es) && QueueInv(es, log) && i < |es| && es[i].state != Free && e.state != Free
    requires e.ip == es[i].ip && e.waitq == es[i].waitq
    ensures Distinct(es[i := e]) && QueueInv(es[i := e], log)
  {
    hide Waiting;
    QueueStep(es, log, i, e, log);
  }

  /** A binding learnt for an address not in the cache. */
  lemma LearnInv(es: seq<Entry>, log: seq<Action>, i: nat, ip: Word32, dev: nat, mac: Mac, now: nat)
    requires Inv(es, log) && i < |es| && es[i].state == Free && !Known(es, ip)
    ensures Inv(es[i := Bound(es[i].(ip := ip), dev, mac, now)], log)
  {
    hide Waiting, Asked, QueueInv;
    QueueAdmit(es, log, i, Bound(es[i].(ip := ip), dev, mac, now));
  }

  /** The entry of a new resolution, and its first request. */
  function Asking(e: Entry, ip: Word32, dev: nat, now: nat): Entry {
    e.(state := Pending, ip := ip, dev := dev, tries := 1, deadline := now + RETRY_MS)
  }

  lemma AskingInv(es: seq<Entry>, log: seq<Action>, i: nat, ip: Word32, dev: nat, now: nat)
    requires Inv(es, log) && i < |es| && es[i].state == Free && !Known(es, ip)
    ensures Inv(es[i := Asking(es[i], ip, dev, now)], log + [Begin(ip), Request(ip, dev)])
  {
    hide Waiting, Asked, QueueInv;
    var es', log1 := es[i := Asking(es[i], ip, dev, now)], log + [Begin(ip)];
    QueueAdmit(es, log, i, Asking(es[i], ip, dev, now));
    OtherKeeps(es', log, Begin(ip));
    OtherKeeps(es', log1, Request(ip, dev));
    assert log1 + [Request(ip, dev)] == log + [Begin(ip), Request(ip, dev)];
    forall other: Word32
      ensures Asked(log1 + [Request(ip, dev)], other) == if other == ip then 1 else Asked(log, other)
    {
      AskedMore(log, Begin(ip), other);
      AskedMore(log1, Request(ip, dev), other);
    }
    forall j | 0 <= j < |es| && j != i && es[j].state != Free
      ensures es[j].ip != ip
    {
      assert !Live(es, ip, j);
    }
  }

  /** A packet parked behind a resolution; a full queue drops its oldest. */
  function Queued(e: Entry, p: Packet): Entry {
    e.(waitq := (if |e.waitq| >= WAITQ_MAX then e.waitq[1..] else e.waitq) + [p])
  }

  function QueuedLog(e: Entry, p: Packet): seq<Action> {
    (if |e.waitq| >= WAITQ_MAX then [Leave(e.ip, e.waitq[0], Dropped)] else []) + [Park(e.ip, p)]
  }

  lemma PushInv(es: seq<Entry>, log: seq<Action>, i: nat, p: Packet)
    requires Inv(es, log) && i < |es| && es[i].state == Pending && |es[i].waitq| < WAITQ_MAX
    ensures Inv(es[i := es[i].(waitq := es[i].waitq + [p])], log + [Park(es[i].ip, p)])
  {
    hide Waiting, Asked, QueueInv;
    PushKeeps(es, log, i, p);
    forall ip: Word32 { AskedMore(log, Park(es[i].ip, p), ip); }
  }

  lemma PopInv(es: seq<Entry>, log: seq<Action>, i: nat)
    requires Inv(es, log) && i < |es| && es[i].state == Pending && es[i].waitq != []
    ensures Inv(es[i := es[i].(waitq := es[i].waitq[1..])], log + [Leave(es[i].ip, es[i].waitq[0], Dropped)])
  {
    hide Waiting, Asked, QueueInv;
    PopKeeps(es, log, i, Dropped);
    forall ip: Word32 { AskedMore(log, Leave(es[i].ip, es[i].waitq[0], Dropped), ip); }
  }

  lemma QueuedInv(es: seq<Entry>, log: seq<Action>, i: nat, p: Packet)
    requires Inv(es, log) && i < |es| && es[i].state == Pending
    ensures Inv(es[i := Queued(es[i], p)], log + QueuedLog(es[i], p))
  {
    hide Distinct, QueueInv, AskInv;
    var e := es[i];
    if |e.waitq| >= WAITQ_MAX {
      PopInv(es, log, i);
      var es1, a := es[i := e.(waitq := e.waitq[1..])], Leave(e.ip, e.waitq[0], Dropped);
      PushInv(es1, log + [a], i, p);
      assert es1[i := es1[i].(waitq := es1[i].waitq + [p])] == es[i := Queued(e, p)];
      assert log + [a] + [Park(e.ip, p)] == log + QueuedLog(e, p);
    } else {
      PushInv(es, log, i, p);
      assert log + [Park(e.ip, p)] == log + QueuedLog(e, p);
    }
  }

  // ---------------------------------------------------------------- a tick

  predicate Due(e: Entry, now: nat) { e.state != Free && e.deadline <= now }

  function Aged(e: Entry, now: nat): Entry {
    if !Due(e, now) then e
    else if e.state == Resolved then e.(state := Free)
    else if e.tries >= MAX_TRIES then e.(state := Free, waitq := [])
    else e.(tries := e.tries + 1, deadline := now + RETRY_MS)
  }

  function AgedLog(e: Entry, now: nat): seq<Action> {
    if !Due(e, now) || e.state == Resolved then []
    else if e.tries >= MAX_TRIES then Leaves(e.ip, e.waitq, Dropped)
    else [Request(e.ip, e.dev)]
  }

  lemma GiveUpInv(es: seq<Entry>, log: seq<Action>, i: nat)
    requires Inv(es, log) && i < |es| && es[i].state != Free
    ensures Inv(es[i := es[i].(state := Free, waitq := [])], log + Leaves(es[i].ip, es[i].waitq, Dropped))
  {
    hide Waiting, Asked, Leaves, QueueInv;
    var e := es[i];
    var gone := e.(state := Free, waitq := []);
    DrainKeeps(es, log, i, Dropped);
    var es1, log' := es[i := e.(waitq := [])], log + Leaves(e.ip, e.waitq, Dropped);
    QueueRetire(es1, log', i, gone);
    assert es1[i := gone] == es[i := gone];
    forall ip: Word32
      ensures Asked(log', ip) == Asked(log, ip)
    {
      LeavesAskNothing(log, e.ip, e.waitq, Dropped, ip);
    }
  }

  lemma RetryInv(es: seq<Entry>, log: seq<Action>, i: nat, now: nat)
    requires Inv(es, log) && i < |es| && es[i].state == Pending && es[i].tries < MAX_TRIES
    ensures Inv(es[i := es[i].(tries := es[i].tries + 1, deadline := now + RETRY_MS)],
                log + [Request(es[i].ip, es[i].dev)])
  {
    hide Waiting, Asked, QueueInv;
    var e := es[i];
    var e' := e.(tries := e.tries + 1, deadline := now + RETRY_MS);
    QueueSame(es, log, i, e');
    OtherKeeps(es[i := e'], log, Request(e.ip, e.dev));
    forall ip: Word32 { AskedMore(log, Request(e.ip, e.dev), ip); }
    assert Asked(log, e.ip) == e.tries;
  }

  lemma AgedInv(es: seq<Entry>, log: seq<Action>, i: nat, now: nat)
    requires Inv(es, log) && i < |es|
    ensures Inv(es[i := Aged(es[i], now)], log + AgedLog(es[i], now))
  {
    hide Distinct, QueueInv, AskInv, Leaves;
    var e := es[i];
    if !Due(e, now) {
      assert es[i := e] == es && log + [] == log;
    } else if e.state == Resolved {
      GiveUpInv(es, log, i);
      NoLeaves(e.ip, Dropped);
      assert log + Leaves(e.ip, e.waitq, Dropped) == log + AgedLog(e, now);
    } else if e.tries >= MAX_TRIES {
      GiveUpInv(es, log, i);
    } else {
      RetryInv(es, log, i, now);
    }
  }

  /** The cache when a tick has passed its first `n` entries, and what it did for them. */
  function Ticked(es: seq<Entry>, now: nat, n: nat): (r: seq<Entry>)
    requires n <= |es|
    ensures |r| == |es| && (forall i :: 0 <= i < n ==> r[i] == Aged(es[i], now))
    ensures forall i :: n <= i < |es| ==> r[i] == es[i]
  {
    if n == 0 then es else Ticked(es, now, n - 1)[n - 1 := Aged(es[n - 1], now)]
  }

  function TickedLog(es: seq<Entry>, now: nat, n: nat): seq<Action>
    requires n <= |es|
  {
    if n == 0 then [] else TickedLog(es, now, n - 1) + AgedLog(es[n - 1], now)
  }
}
