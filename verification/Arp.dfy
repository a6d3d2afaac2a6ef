/** The ARP cache in place: `arp_resolve`, `arp_input`, `arp_tick` and their helpers. */
module Arp {
  import opened SeqSpace
  import opened Common
  import opened ArpSpec

  const HDR_LEN: nat := 28
  const ETH_TYPE_IP4: nat := 0x0800
  const OP_REQUEST: nat := 1
  const OP_REPLY: nat := 2

  datatype Device = Device(id: nat, ip: Word32)

  /** A received ARP frame of `len` bytes; the fields are read only if the header is complete. */
  datatype Frame = Frame(len: nat, htype: nat, ptype: nat, hlen: nat, plen: nat, op: nat, sha: Mac, spa: Word32,
                         tpa: Word32)

  predicate Malformed(f: Frame) {
    || f.len < HDR_LEN || f.htype != 1 || f.ptype != ETH_TYPE_IP4 || f.hlen != 6 || f.plen != 4
    || (f.op != OP_REQUEST && f.op != OP_REPLY)
  }

  predicate ForUs(dev: Device, f: Frame) { dev.ip != 0 && f.tpa == dev.ip }

  // ---------------------------------------------------------------- the operations on values

  /** The cache once entry `i` stands for a pending resolution of `ip`, and what that took. */
  ghost predicate Opens(es: seq<Entry>, ip: Word32, dev: nat, now: nat, i: nat, es': seq<Entry>, did: seq<Action>) {
    if Known(es, ip) then Live(es, ip, i) && es' == es && did == []
    else
      && i < |es| && Victim(es, i) && es' == es[i := Asking(Emptied(es[i]), ip, dev, now)]
      && did == EvictionLog(es[i]) + [Begin(ip), Request(ip, dev)]
  }

  /** `arp_resolve`: the MAC of a resolved entry, or the packet is parked. */
  ghost predicate Resolves(es: seq<Entry>, ip: Word32, dev: nat, p: Option<Packet>, now: nat,
                           es': seq<Entry>, did: seq<Action>, ans: Option<Mac>)
  {
    if exists i: nat :: Live(es, ip, i) && es[i].state == Resolved then
      es' == es && did == [] && exists i: nat :: Live(es, ip, i) && ans == Some(es[i].mac)
    else
      && ans == None
      && exists i: nat, es1, did1 :: Opens(es, ip, dev, now, i, es1, did1) && Parks(es1, did1, i, p, es', did)
  }

  ghost predicate Parks(es: seq<Entry>, did: seq<Action>, i: nat, p: Option<Packet>, es': seq<Entry>,
                        did': seq<Action>) {
    i < |es| &&
    match p
    case None => es' == es && did' == did
    case Some(packet) => es' == es[i := Queued(es[i], packet)] && did' == did + QueuedLog(es[i], packet)
  }

  /** The merge of `arp_input`: any ARP packet updates a binding, only one for us creates it. */
  ghost predicate Merges(es: seq<Entry>, dev: Device, f: Frame, now: nat, es': seq<Entry>, did: seq<Action>) {
    if f.spa != 0 && Known(es, f.spa) then
      exists i: nat :: Live(es, f.spa, i) && es' == es[i := Bound(es[i], dev.id, f.sha, now)]
        && did == BoundLog(es[i], dev.id, f.sha)
    else if f.spa != 0 && ForUs(dev, f) then
      exists i: nat :: i < |es| && Victim(es, i)
        && es' == es[i := Bound(Emptied(es[i]).(ip := f.spa), dev.id, f.sha, now)]
        && did == EvictionLog(es[i])
    else es' == es && did == []
  }

  /** `arp_input`. */
  ghost predicate Hears(es: seq<Entry>, dev: Device, f: Frame, now: nat, es': seq<Entry>, did: seq<Action>) {
    if Malformed(f) then es' == es && did == []
    else exists merge :: Merges(es, dev, f, now, es', merge) && did == merge + Answers(dev, f)
  }

  function Answers(dev: Device, f: Frame): seq<Action> {
    if ForUs(dev, f) && f.op == OP_REQUEST then [Reply(f.spa, dev.id, f.sha)] else []
  }

  lemma ReplyInv(es: seq<Entry>, log: seq<Action>, a: Action)
    requires Inv(es, log) && a.Reply?
    ensures Inv(es, log + [a])
  {
    hide Waiting, Asked, QueueInv;
    OtherKeeps(es, log, a);
    forall ip: Word32 { AskedMore(log, a, ip); }
  }

  lemma LiveUnique(es: seq<Entry>, ip: Word32, i: nat, j: nat)
    requires Distinct(es) && Live(es, ip, i) && Live(es, ip, j)
    ensures i == j
  {
  }

  // ---------------------------------------------------------------- in place

  class Cache {
    const entries: array<Entry>
    /** What the cache has done so far. */
    ghost var log: seq<Action>

    ghost predicate Valid()
      reads this, entries
    {
      entries.Length == CACHE_SIZE && Inv(entries[..], log)
    }

    /** `arp_init`. */
    constructor ()
      ensures Valid() && log == [] && fresh(entries) && forall i :: 0 <= i < CACHE_SIZE ==> entries[i] == CLEARED
    {
      entries := new Entry[CACHE_SIZE](_ => CLEARED);
      log := [];
    }

    /** `arp_lookup`. */
    method Lookup(ip: Word32) returns (found: bool, i: nat)
      requires entries.Length == CACHE_SIZE
      ensures found <==> Known(entries[..], ip)
      ensures found ==> i < CACHE_SIZE && Live(entries[..], ip, i)
    {
      i := 0;
      while i < CACHE_SIZE
        invariant i <= CACHE_SIZE && forall j: nat :: j < i ==> !Live(entries[..], ip, j)
      {
        if entries[i].state != Free && entries[i].ip == ip {
          assert Live(entries[..], ip, i);
          return true, i;
        }
        i := i + 1;
      }
      found := false;
    }

    /** Popping a wait queue until it is empty; each packet meets the same fate. */
    method Drain(i: nat, fate: Fate)
      requires i < entries.Length
      modifies this, entries
      ensures entries[..] == old(entries[..])[i := old(entries[i]).(waitq := [])]
      ensures log == old(log) + Leaves(old(entries[i]).ip, old(entries[i]).waitq, fate)
    {
      ghost var e, rest := entries[i], entries[..];
      while entries[i].waitq != []
        invariant entries[i] == e.(waitq := entries[i].waitq) && entries[..] == rest[i := entries[i]]
        invariant log + Leaves(e.ip, entries[i].waitq, fate) == old(log) + Leaves(e.ip, e.waitq, fate)
        decreases |entries[i].waitq|
      {
        var q := entries[i].waitq;
        assert log + Leaves(e.ip, q, fate) == log + [Leave(e.ip, q[0], fate)] + Leaves(e.ip, q[1..], fate);
        log := log + [Leave(e.ip, q[0], fate)];
        entries[i] := entries[i].(waitq := q[1..]);
      }
    }

    /** `arp_alloc_entry`. */
    method Alloc() returns (i: nat)
      requires Valid()
      modifies this, entries
      ensures Valid() && i < CACHE_SIZE && Victim(old(entries[..]), i) && entries[i].state == Free
      ensures entries[..] == old(entries[..])[i := Emptied(old(entries[i]))]
      ensures log == old(log) + EvictionLog(old(entries[i]))
    {
      hide Inv, Leaves;
      i := Choose();
      EvictInv(entries[..], log, i);
      if entries[i].state != Free {
        Drain(i, Dropped);
        entries[i] := CLEARED;
      }
      assert entries[..] == old(entries[..])[i := Emptied(old(entries[i]))];
      assert log == old(log) + EvictionLog(old(entries[i]));
    }

    /** Its scan. */
    method Choose() returns (v: nat)
      requires entries.Length == CACHE_SIZE
      ensures Victim(entries[..], v)
    {
      v := 0;
      for i := 0 to CACHE_SIZE
        invariant v < CACHE_SIZE && v <= i
        invariant forall j :: 0 <= j < i ==> entries[j].state != Free && entries[v].deadline <= entries[j].deadline
        invariant forall j :: 0 <= j < v ==> entries[v].deadline < entries[j].deadline
      {
        if entries[i].state == Free {
          return i;
        }
        if entries[i].deadline < entries[v].deadline {
          v := i;
        }
      }
    }

    /** `arp_entry_resolve`. */
    method Bind(i: nat, dev: nat, mac: Mac, now: nat)
      requires i < entries.Length
      modifies this, entries
      ensures entries[..] == old(entries[..])[i := Bound(old(entries[i]), dev, mac, now)]
      ensures log == old(log) + BoundLog(old(entries[i]), dev, mac)
    {
      hide Leaves;
      var wasPending := entries[i].state == Pending;
      entries[i] := entries[i].(state := Resolved, mac := mac, dev := dev, deadline := now + TTL_MS, tries := 0);
      if wasPending {
        Drain(i, Sent(dev, mac));
      }
    }

    /** Starting a resolution where there is none. */
    method Open(ip: Word32, dev: nat, now: nat) returns (i: nat, ghost did: seq<Action>)
      requires Valid() && !Known(entries[..], ip)
      modifies this, entries
      ensures Valid() && i < CACHE_SIZE && entries[i].state == Pending
      ensures Opens(old(entries[..]), ip, dev, now, i, entries[..], did) && log == old(log) + did
    {
      hide Inv, Leaves, Victim;
      ghost var es := entries[..];
      i := Alloc();
      EvictInv(es, old(log), i);
      AskingInv(entries[..], log, i, ip, dev, now);
      entries[i] := entries[i].(state := Pending, ip := ip, dev := dev, tries := 1, deadline := now + RETRY_MS);
      log := log + [Begin(ip), Request(ip, dev)];
      did := EvictionLog(es[i]) + [Begin(ip), Request(ip, dev)];
    }

    /** Parking a packet behind a pending resolution. */
    method Enqueue(i: nat, p: Packet)
      requires Valid() && i < CACHE_SIZE && entries[i].state == Pending
      modifies this, entries
      ensures Valid() && entries[..] == old(entries[..])[i := Queued(old(entries[i]), p)]
      ensures log == old(log) + QueuedLog(old(entries[i]), p)
    {
      hide Inv;
      QueuedInv(entries[..], log, i, p);
      var e := entries[i];
      if |e.waitq| >= WAITQ_MAX {
        log := log + [Leave(e.ip, e.waitq[0], Dropped)];
        entries[i] := e.(waitq := e.waitq[1..]);
      }
      log := log + [Park(e.ip, p)];
      entries[i] := entries[i].(waitq := entries[i].waitq + [p]);
      assert entries[..] == old(entries[..])[i := Queued(e, p)] && log == old(log) + QueuedLog(e, p);
    }

    /** `arp_resolve`; a packet given with no answer is taken. */
    method Resolve(ip: Word32, dev: nat, p: Option<Packet>, now: nat) returns (ans: Option<Mac>, ghost did: seq<Action>)
      requires Valid()
      modifies this, entries
      ensures Valid() && Resolves(old(entries[..]), ip, dev, p, now, entries[..], did, ans) && log == old(log) + did
    {
      hide Inv, Opens, Queued, QueuedLog;
      var found, i := Lookup(ip);
      if found && entries[i].state == Resolved {
        return Some(entries[i].mac), [];
      }
      did := [];
      ghost var es := entries[..];
      i, did := Await(found, i, ip, dev, now);
      ghost var es1, did1 := entries[..], did;
      if p.Some? {
        did := did + QueuedLog(entries[i], p.value);
        Enqueue(i, p.value);
      }
      ans := None;
      assert Opens(es, ip, dev, now, i, es1, did1) && Parks(es1, did1, i, p, entries[..], did);
    }

    method Await(found: bool, at: nat, ip: Word32, dev: nat, now: nat) returns (i: nat, ghost did: seq<Action>)
      requires Valid() && (found <==> Known(entries[..], ip))
      requires found ==> Live(entries[..], ip, at) && entries[at].state == Pending
      modifies this, entries
      ensures Valid() && i < CACHE_SIZE && entries[i].state == Pending
      ensures Opens(old(entries[..]), ip, dev, now, i, entries[..], did) && log == old(log) + did
      ensures !exists j: nat :: Live(old(entries[..]), ip, j) && old(entries[..])[j].state == Resolved
    {
      hide QueueInv, AskInv, Victim;
      forall j: nat | Live(entries[..], ip, j)
        ensures entries[..][j].state != Resolved
      {
        assert found;
        LiveUnique(entries[..], ip, at, j);
      }
      if found {
        return at, [];
      }
      i, did := Open(ip, dev, now);
    }

    /** The merge of `arp_input`. */
    method Merge(dev: Device, f: Frame, now: nat) returns (ghost did: seq<Action>)
      requires Valid()
      modifies this, entries
      ensures Valid() && Merges(old(entries[..]), dev, f, now, entries[..], did) && log == old(log) + did
    {
      hide Inv, Leaves, Victim, Bound, BoundLog;
      did := [];
      if f.spa == 0 {
        return;
      }
      ghost var es := entries[..];
      var found, i := Lookup(f.spa);
      if found {
        BoundInv(es, log, i, dev.id, f.sha, now);
        Bind(i, dev.id, f.sha, now);
        did := BoundLog(es[i], dev.id, f.sha);
      } else if ForUs(dev, f) {
        i := Learn(dev, f, now);
        did := EvictionLog(es[i]);
      }
    }

    /** A new binding. */
    method Learn(dev: Device, f: Frame, now: nat) returns (i: nat)
      requires Valid() && !Known(entries[..], f.spa)
      modifies this, entries
      ensures Valid() && i < CACHE_SIZE && Victim(old(entries[..]), i) && log == old(log) + EvictionLog(old(entries[i]))
      ensures entries[..] == old(entries[..])[i := Bound(Emptied(old(entries[i])).(ip := f.spa), dev.id, f.sha, now)]
    {
      hide Inv, Leaves, Victim;
      ghost var es := entries[..];
      i := Alloc();
      EvictInv(es, old(log), i);
      LearnInv(entries[..], log, i, f.spa, dev.id, f.sha, now);
      assert log + BoundLog(entries[i].(ip := f.spa), dev.id, f.sha) == log;
      ghost var after := entries[..][i := Bound(entries[i].(ip := f.spa), dev.id, f.sha, now)];
      entries[i] := entries[i].(ip := f.spa);
      Bind(i, dev.id, f.sha, now);
      assert entries[..] == after;
    }

    /** `arp_input`. */
    method Input(dev: Device, f: Frame, now: nat) returns (ghost did: seq<Action>)
      requires Valid()
      modifies this, entries
      ensures Valid() && Hears(old(entries[..]), dev, f, now, entries[..], did) && log == old(log) + did
    {
      hide Inv, Merges;
      did := [];
      if Malformed(f) {
        return;
      }
      ghost var merge := Merge(dev, f, now);
      did := merge + Answers(dev, f);
      if ForUs(dev, f) && f.op == OP_REQUEST {
        ReplyInv(entries[..], log, Reply(f.spa, dev.id, f.sha));
        log := log + [Reply(f.spa, dev.id, f.sha)];
      }
    }

    /** One entry of `arp_tick`. */
    method Age(i: nat, now: nat)
      requires i < entries.Length
      modifies this, entries
      ensures entries[..] == old(entries[..])[i := Aged(old(entries[i]), now)]
      ensures log == old(log) + AgedLog(old(entries[i]), now)
    {
      hide Leaves;
      var e := entries[i];
      if e.state == Free || now < e.deadline {
        return;
      }
      if e.state == Resolved {
        entries[i] := e.(state := Free);
      } else if e.tries >= MAX_TRIES {
        Drain(i, Dropped);
        entries[i] := entries[i].(state := Free);
      } else {
        entries[i] := e.(tries := e.tries + 1, deadline := now + RETRY_MS);
        log := log + [Request(e.ip, e.dev)];
      }
    }

    /** `arp_tick`. */
    method Tick(now: nat)
      requires Valid()
      modifies this, entries
      ensures Valid() && entries[..] == Ticked(old(entries[..]), now, CACHE_SIZE)
      ensures log == old(log) + TickedLog(old(entries[..]), now, CACHE_SIZE)
    {
      hide Inv, Aged, AgedLog;
      ghost var es := entries[..];
      for i := 0 to CACHE_SIZE
        invariant Inv(entries[..], log) && entries[..] == Ticked(es, now, i) && log == old(log) + TickedLog(es, now, i)
      {
        assert entries[i] == entries[..][i] == es[i];
        AgedInv(entries[..], log, i, now);
        Age(i, now);
      }
    }
  }
}
