/** The forwarding path of src/fwd/fwd.c: route choice, TTL and the incremental header checksum. */
module Forwarding {
  import opened SeqSpace
  import opened Common
  import opened Checksum
  import opened Ipv4
  import opened Fib

  datatype Device = Device(ip: Word32, mask: Word32, mtu: nat)

  datatype Verdict = BadDst | TtlExceeded | NoRoute | TooBig(fragNeeded: bool) | Sent(nextHop: Word32, dev: nat)

  /** `ip | ~mask`, computed bit by bit. */
  function SubnetBroadcast(ip: Word32, mask: Word32): nat {
    OrNot(ip, mask, 32)
  }

  function OrNot(ip: nat, mask: nat, n: nat): nat {
    if n == 0 then 0
    else (if ip % 2 == 1 || mask % 2 == 0 then 1 else 0) + 2 * OrNot(ip / 2, mask / 2, n - 1)
  }

  /** The directed broadcast of one of our interfaces. */
  predicate IsDirected(devs: seq<Device>, dst: Word32) {
    exists i :: 0 <= i < |devs| && devs[i].ip != 0 && dst == SubnetBroadcast(devs[i].ip, devs[i].mask)
  }

  // ---------------------------------------------------------------- one hop

  /** The header after the in-place update: TTL one lower, checksum by equation 3 of RFC 1624. */
  function Hop(h: seq<byte>): (r: seq<byte>)
    requires |h| >= HDR_MIN && Ttl(h) > 0
    ensures |r| == |h|
  {
    var word := Get16(h, 8);
    Put16(h[8 := h[8] - 1], 10, Fold((ONES - Get16(h, 10)) + (ONES - word) + (word - 256)))
  }

  /** The header with its TTL one lower and its checksum recomputed from scratch. */
  function Recomputed(h: seq<byte>): (r: seq<byte>)
    requires |h| >= HDR_MIN && Ttl(h) > 0
    ensures |r| == |h|
  {
    var zeroed := Put16(h[8 := h[8] - 1], 10, 0);
    Put16(zeroed, 10, Fold(WordSum(zeroed)))
  }

  /** The sum of the words other than the TTL word and the checksum; the version word keeps it positive. */
  lemma RestOfHeader(h: seq<byte>, rest: int)
    requires |h| >= HDR_MIN && Version(h) == 4 && rest == WordSum(h) - Get16(h, 8) - Get16(h, 10)
    ensures rest > 0
  {
    var a := Put16(h, 8, 0);
    WordSumPut(h, 8, 0);
    WordSumPut(a, 10, 0);
    assert WordSum(Put16(a, 10, 0)) >= 256 * h[0] as int;
  }

  lemma LowerTtl(h: seq<byte>)
    requires |h| >= HDR_MIN && Ttl(h) > 0
    ensures h[8 := h[8] - 1] == Put16(h, 8, Get16(h, 8) - 256)
    ensures Get16(h[8 := h[8] - 1], 10) == Get16(h, 10) && Get16(h[8 := h[8] - 1], 8) == Get16(h, 8) - 256
  {
  }

  /**
   * For every header `ip_input` accepts, with any TTL that may be forwarded, the incremental update
   * equals full recomputation, whichever of the two zeros the old checksum was; and the result is
   * accepted by the next router.
   */
  lemma HopRecomputes(h: seq<byte>)
    requires GoodHeader(h) && Ttl(h) >= 2
    ensures Hop(h) == Recomputed(h) && GoodHeader(Hop(h)) && Ttl(Hop(h)) == Ttl(h) - 1
    ensures forall i :: 0 <= i < |h| && i != 8 && i != 10 && i != 11 ==> Hop(h)[i] == h[i]
  {
    hide WordSum, Fold;
    var w, c := Get16(h, 8), Get16(h, 10);
    var low := h[8 := h[8] - 1];
    var zeroed := Put16(low, 10, 0);
    LowerTtl(h);
    WordSumPut(h, 8, w - 256);
    WordSumPut(low, 10, 0);
    var rest := WordSum(h) - w - c;
    RestOfHeader(h, rest);
    UpdateEqualsRecompute(rest, c, w, w - 256);
    FillVerifies(zeroed, 10, 0);
    assert Put16(low, 10, Fold(WordSum(zeroed))) == Put16(zeroed, 10, Fold(WordSum(zeroed)));
  }

  /** Rewriting a packet rewrites its header. */
  lemma HopSplits(p: seq<byte>, n: nat)
    requires HDR_MIN <= n <= |p| && Ttl(p) > 0
    ensures Hop(p) == Hop(p[..n]) + p[n..]
  {
    hide Fold;
  }

  /** A packet accepted by one router is accepted by the next, payload untouched. */
  lemma HopAccepted(p: seq<byte>)
    requires CheckHeader(p) == Accepted(p) && Ttl(p) >= 2
    ensures CheckHeader(Hop(p)) == Accepted(Hop(p)) && Ttl(Hop(p)) == Ttl(p) - 1
    ensures SameButTtl(p, Hop(p))
  {
    hide Hop, WordSum, Fold, BadSource, Recomputed;
    var n := HdrLen(p);
    HopSplits(p, n);
    HopRecomputes(p[..n]);
    assert |p| == |p[..TotalLen(p)]|;
    var q := Hop(p);
    assert q[..n] == Hop(p[..n]) && q[..|p|] == q;
  }

  /** Two packets that differ at most in the TTL and checksum bytes. */
  predicate SameButTtl(p: seq<byte>, q: seq<byte>) {
    |p| == |q| && forall i :: 0 <= i < |p| && i != 8 && i != 10 && i != 11 ==> q[i] == p[i]
  }

  // ---------------------------------------------------------------- the decision

  predicate Unforwardable(devs: seq<Device>, dst: Word32) {
    IsLoopback(dst) || IsMulticast(dst) || IsExperimental(dst) || IsDirected(devs, dst)
  }

  /** Every route leaves by one of the interfaces. */
  ghost predicate Wired(devs: seq<Device>, routes: map<Key, Route>) {
    forall k :: k in routes ==> routes[k].dev < |devs|
  }

  /** What a router with these interfaces and routes must do with packet `p`. */
  ghost predicate Decision(devs: seq<Device>, routes: map<Key, Route>, p: seq<byte>, v: Verdict)
    requires |p| >= HDR_MIN && Wired(devs, routes)
  {
    var dst := Dst(p);
    if Unforwardable(devs, dst) then v == BadDst
    else if Ttl(p) <= 1 then v == TtlExceeded
    else if forall k :: k in routes ==> !Covers(k, dst) then v == NoRoute
    else exists k :: Longest(routes, dst, k) && v == Along(devs[routes[k].dev].mtu, routes[k], p)
  }

  /** Sending `p` along a route. */
  function Along(mtu: nat, route: Route, p: seq<byte>): Verdict
    requires |p| >= HDR_MIN
  {
    if |p| > mtu then TooBig(Frag(p) / FRAG_DF % 2 == 1)
    else Sent(if route.connected then Dst(p) else route.nextHop, route.dev)
  }

  /** Address `hop` is on the link of device `dev`: a connected route over that device covers it. */
  ghost predicate OnLink(routes: map<Key, Route>, hop: Word32, dev: nat) {
    exists k :: k in routes && routes[k].connected && routes[k].dev == dev && Covers(k, hop)
  }

  /** Every gateway is on the link of the device its route names. */
  ghost predicate Anchored(routes: map<Key, Route>) {
    forall k :: k in routes && !routes[k].connected ==> OnLink(routes, routes[k].nextHop, routes[k].dev)
  }

  /** All gateways but the one of `key`, and `gateway` on `dev`, are on their links without the route of `key`. */
  ghost predicate Spare(routes: map<Key, Route>, key: Key, gateway: Word32, dev: nat) {
    && OnLink(routes - {key}, gateway, dev)
    && forall k :: k in routes && k != key && !routes[k].connected ==>
         OnLink(routes - {key}, routes[k].nextHop, routes[k].dev)
  }

  /** A route through a gateway is no link. */
  lemma ViaIsNoLink(routes: map<Key, Route>, key: Key, r: Route, hop: Word32, dev: nat)
    requires !r.connected
    ensures OnLink(routes[key := r], hop, dev) <==> OnLink(routes - {key}, hop, dev)
  {
    hide Covers;
    var routes' := routes[key := r];
    if OnLink(routes', hop, dev) {
      var k :| k in routes' && routes'[k].connected && routes'[k].dev == dev && Covers(k, hop);
      assert k in routes - {key};
    }
    if OnLink(routes - {key}, hop, dev) {
      var k :| k in routes - {key} && routes[k].connected && routes[k].dev == dev && Covers(k, hop);
      assert routes'[k] == routes[k];
    }
  }

  /**
   * A route `fib_add_via` has checked leaves every gateway on its link if and only if it does not take the place of a
   * connected route, or no gateway needs that one.
   */
  lemma ViaAnchoredIff(routes: map<Key, Route>, key: Key, gateway: Word32, via: Route)
    requires Anchored(routes) && IsMatch(routes, gateway, Some(via)) && via.connected
    ensures Anchored(routes[key := Route(gateway, via.dev, false)]) <==>
      (key in routes && routes[key].connected ==> Spare(routes, key, gateway, via.dev))
  {
    hide Covers, OnLink, Longest, Anchored;
    SpareIff(routes, key, gateway, via.dev);
    if !(key in routes && routes[key].connected) {
      MatchOnLink(routes, gateway, via);
      forall hop: Word32, dev: nat | OnLink(routes, hop, dev)
        ensures OnLink(routes - {key}, hop, dev)
      {
        NotALink(routes, key, hop, dev);
      }
      forall k | k in routes && k != key && !routes[k].connected
        ensures OnLink(routes - {key}, routes[k].nextHop, routes[k].dev)
      {
        AnchoredAt(routes, k);
      }
    }
  }

  lemma SpareIff(routes: map<Key, Route>, key: Key, gateway: Word32, dev: nat)
    ensures Anchored(routes[key := Route(gateway, dev, false)]) <==> Spare(routes, key, gateway, dev)
  {
    hide OnLink;
    var r := Route(gateway, dev, false);
    var routes' := routes[key := r];
    if Anchored(routes') {
      forall k | k in routes' && !routes'[k].connected
        ensures OnLink(routes - {key}, routes'[k].nextHop, routes'[k].dev)
      {
        ViaIsNoLink(routes, key, r, routes'[k].nextHop, routes'[k].dev);
      }
      assert routes'[key] == r;
      assert forall k :: k in routes && k != key ==> routes'[k] == routes[k];
    }
    if Spare(routes, key, gateway, dev) {
      forall k | k in routes' && !routes'[k].connected
        ensures OnLink(routes', routes'[k].nextHop, routes'[k].dev)
      {
        ViaIsNoLink(routes, key, r, routes'[k].nextHop, routes'[k].dev);
      }
    }
  }

  lemma MatchOnLink(routes: map<Key, Route>, gateway: Word32, via: Route)
    requires IsMatch(routes, gateway, Some(via)) && via.connected
    ensures OnLink(routes, gateway, via.dev)
  {
    var k :| Longest(routes, gateway, k) && routes[k] == via;
    assert k in routes && Covers(k, gateway);
  }

  lemma NotALink(routes: map<Key, Route>, key: Key, hop: Word32, dev: nat)
    requires OnLink(routes, hop, dev) && !(key in routes && routes[key].connected)
    ensures OnLink(routes - {key}, hop, dev)
  {
    hide Covers;
    var k :| k in routes && routes[k].connected && routes[k].dev == dev && Covers(k, hop);
    assert k in routes - {key};
  }

  /** 10.0.0.0/8 and 11.0.0.0/8 are connected, 12.0.0.0/8 is reached through 10.0.0.1. */
  const TEN: Key := Key(8, 10)
  const LINKS: map<Key, Route> := map[TEN := Route(0, 0, true), Key(8, 11) := Route(0, 1, true),
                                      Key(8, 12) := Route(0x0a00_0001, 0, false)]

  lemma InTheEight(k: Key, addr: Word32)
    requires k.len == 8
    ensures Covers(k, addr) <==> k.bits == addr / 0x100_0000
  {
    assert Pow2(8) == 0x100;
    assert Pow2(16) == 0x1_0000;
    assert Pow2(24) == 0x100_0000;
  }

  /** It can fail: 10.0.0.0/8 through 11.0.0.1 leaves 10.0.0.1 without its link. */
  lemma GatewayStranded()
    ensures Anchored(LINKS) && IsMatch(LINKS, 0x0b00_0001, Some(LINKS[Key(8, 11)]))
    ensures !Anchored(LINKS[TEN := Route(0x0b00_0001, 1, false)])
  {
    hide Path, Covers;
    forall k, addr: Word32 | k in LINKS ensures Covers(k, addr) <==> k.bits == addr / 0x100_0000 {
      InTheEight(k, addr);
    }
    assert OnLink(LINKS, 0x0a00_0001, 0) by { assert TEN in LINKS; }
    assert Longest(LINKS, 0x0b00_0001, Key(8, 11));
    var routes' := LINKS[TEN := Route(0x0b00_0001, 1, false)];
    assert !OnLink(routes', 0x0a00_0001, 0) by {
      assert forall k :: k in routes' ==> k in LINKS;
    }
    assert Key(8, 12) in routes' && routes'[Key(8, 12)].nextHop == 0x0a00_0001;
  }

  /**
   * Where a packet goes: out by the device of the longest match, to an address on the link of that device.
   * This is its own destination when that match is connected, and a gateway otherwise.
   */
  lemma SentOnLink(devs: seq<Device>, routes: map<Key, Route>, p: seq<byte>, hop: Word32, dev: nat, k: Key)
    requires |p| >= HDR_MIN && Wired(devs, routes) && Anchored(routes) && Decision(devs, routes, p, Sent(hop, dev))
    requires Longest(routes, Dst(p), k)
    ensures routes[k].dev == dev && OnLink(routes, hop, dev)
    ensures if routes[k].connected then hop == Dst(p) else hop == routes[k].nextHop
  {
    hide SubnetBroadcast, Anchored, Unforwardable, Covers, Along, OnLink;
    var j :| Longest(routes, Dst(p), j) && Sent(hop, dev) == Along(devs[routes[j].dev].mtu, routes[j], p);
    LongestUnique(routes, Dst(p), j, k);
    AlongSends(devs[routes[k].dev].mtu, routes[k], p, hop, dev);
    if routes[k].connected {
      LongestOnLink(routes, Dst(p), k);
    } else {
      AnchoredAt(routes, k);
    }
  }

  lemma LongestUnique(routes: map<Key, Route>, dst: Word32, j: Key, k: Key)
    requires Longest(routes, dst, j) && Longest(routes, dst, k)
    ensures j == k && k in routes
  {
  }

  lemma LongestOnLink(routes: map<Key, Route>, dst: Word32, k: Key)
    requires Longest(routes, dst, k) && routes[k].connected
    ensures OnLink(routes, dst, routes[k].dev)
  {
  }

  lemma AlongSends(mtu: nat, route: Route, p: seq<byte>, hop: Word32, dev: nat)
    requires |p| >= HDR_MIN && Along(mtu, route, p) == Sent(hop, dev)
    ensures dev == route.dev && |p| <= mtu && hop == if route.connected then Dst(p) else route.nextHop
  {
  }

  lemma AnchoredAt(routes: map<Key, Route>, k: Key)
    requires Anchored(routes) && k in routes && !routes[k].connected
    ensures OnLink(routes, routes[k].nextHop, routes[k].dev)
  {
  }

  /** The scan for a subnet-directed broadcast (RFC 2644). */
  method Directed(devs: seq<Device>, dst: Word32) returns (found: bool)
    ensures found <==> IsDirected(devs, dst)
  {
    for i := 0 to |devs|
      invariant forall j :: 0 <= j < i ==> devs[j].ip == 0 || dst != SubnetBroadcast(devs[j].ip, devs[j].mask)
    {
      if devs[i].ip != 0 && dst == SubnetBroadcast(devs[i].ip, devs[i].mask) {
        return true;
      }
    }
    return false;
  }

  /** The header rewrite of `ip_forward`, in the packet buffer. */
  method Rewrite(buf: array<byte>)
    requires buf.Length >= HDR_MIN && buf[8] > 0
    modifies buf
    ensures buf[..] == Hop(old(buf[..]))
  {
    hide Fold;
    var oldWord := 256 * buf[8] as int + buf[9] as int;
    buf[8] := buf[8] - 1;
    var newWord := 256 * buf[8] as int + buf[9] as int;
    var csum := Update16(256 * buf[10] as int + buf[11] as int, oldWord, newWord);
    buf[10] := (csum / 256) as byte;
    buf[11] := (csum % 256) as byte;
  }

  /** `ip_forward`: it takes the required decision, and rewrites the packet exactly when it sends it. */
  method Forward(buf: array<byte>, devs: seq<Device>, fib: Table) returns (v: Verdict)
    requires buf.Length >= HDR_MIN && fib.Valid() && Wired(devs, fib.Routes())
    modifies buf
    ensures Decision(devs, old(fib.Routes()), old(buf[..]), v)
    ensures buf[..] == if v.Sent? then Hop(old(buf[..])) else old(buf[..])
  {
    hide SubnetBroadcast, Table.Valid, Table.Routes, Hop;
    ghost var p := buf[..];
    var dst := Dst(buf[..]);
    if IsLoopback(dst) || IsMulticast(dst) || IsExperimental(dst) {
      return BadDst;
    }
    var directed := Directed(devs, dst);
    if directed {
      return BadDst;
    }
    if buf[8] <= 1 {
      return TtlExceeded;
    }
    var rt := fib.Lookup(dst);
    if rt == null {
      return NoRoute;
    }
    var out := devs[rt.dev];
    if buf.Length > out.mtu {
      return TooBig(Frag(buf[..]) / FRAG_DF % 2 == 1);
    }
    Rewrite(buf);
    return Sent(if rt.connected then dst else rt.nextHop, rt.dev);
  }

  // ---------------------------------------------------------------- a chain of routers

  datatype Router = Router(devs: seq<Device>, routes: map<Key, Route>)

  /** Router `r` turns `p` into `q` and sends it on. */
  ghost predicate Forwards(r: Router, p: seq<byte>, q: seq<byte>) {
    && |p| >= HDR_MIN && Wired(r.devs, r.routes)
    && exists v: Verdict :: v.Sent? && Decision(r.devs, r.routes, p, v) && q == Hop(p)
  }

  /** `trace` is a packet as it leaves each router of a path. */
  ghost predicate Chain(path: seq<Router>, trace: seq<seq<byte>>) {
    |trace| == |path| + 1 && forall i :: 0 <= i < |path| ==> Forwards(path[i], trace[i], trace[i + 1])
  }

  /**
   * Over any path of routers, whatever their tables, a packet accepted at the start is accepted at
   * every hop, changes only its TTL and checksum, and is forwarded at most TTL - 1 times.
   */
  lemma {:induction false} ChainSafe(path: seq<Router>, trace: seq<seq<byte>>, n: nat)
    requires Chain(path, trace) && n <= |path| && CheckHeader(trace[0]) == Accepted(trace[0]) && Ttl(trace[0]) >= 1
    ensures CheckHeader(trace[n]) == Accepted(trace[n]) && SameButTtl(trace[0], trace[n])
    ensures Ttl(trace[n]) == Ttl(trace[0]) - n && n <= Ttl(trace[0]) - 1
    decreases n
  {
    hide Hop, CheckHeader;
    if n > 0 {
      ChainSafe(path, trace, n - 1);
      assert Forwards(path[n - 1], trace[n - 1], trace[n]);
      HopAccepted(trace[n - 1]);
    }
  }

  // ---------------------------------------------------------------- directed broadcasts

  lemma {:induction false} OrNotOnes(ip: nat, n: nat)
    requires ip < Pow2(n)
    ensures OrNot(ip, Pow2(n) - 1, n) == ip
  {
    if n > 0 {
      OrNotOnes(ip / 2, n - 1);
    }
  }

  /** For a mask of leading ones, the directed broadcast is the last address of the subnet. */
  lemma {:induction false} BroadcastIsLast(ip: nat, mask: nat, n: nat, host: nat)
    requires ip < Pow2(n) && host <= n && mask + Pow2(host) == Pow2(n)
    ensures OrNot(ip, mask, n) == ip - ip % Pow2(host) + Pow2(host) - 1
    decreases n
  {
    if host == 0 {
      OrNotOnes(ip, n);
    } else {
      BroadcastIsLast(ip / 2, mask / 2, n - 1, host - 1);
      HalfRemainder(ip, Pow2(host - 1));
    }
  }

  lemma HalfRemainder(ip: nat, p: nat)
    requires p > 0
    ensures ip % (2 * p) == 2 * (ip / 2 % p) + ip % 2
  {
    var q, r := ip / 2 / p, ip / 2 % p;
    DivMod(ip / 2, p);
    assert ip == q * (2 * p) + (2 * r + ip % 2);
    QuotientUnique(ip, 2 * p, q, 2 * r + ip % 2);
  }
}
