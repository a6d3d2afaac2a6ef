/** The forwarding table of src/route/fib.c: a binary trie over a fixed pool of entries. */
module Fib {
  import opened SeqSpace
  import opened Common

  const MAX_ROUTES: nat := 64

  // ---------------------------------------------------------------- prefixes

  function Pow2(n: nat): (p: nat)
    ensures p > 0
  {
    if n == 0 then 1 else 2 * Pow2(n - 1)
  }

  /** The first `len` bits of an address. */
  function Top(addr: Word32, len: nat): int
    requires len <= 32
  {
    addr / Pow2(32 - len)
  }

  /** `bit_at`: bit `depth` of an address, counted from the most significant. */
  function BitAt(addr: Word32, depth: nat): (b: nat)
    requires depth < 32
    ensures b < 2
  {
    addr / Pow2(31 - depth) % 2
  }

  /** A prefix: its length and its bits. */
  datatype Key = Key(len: nat, bits: int)

  function Extend(k: Key, b: nat): Key { Key(k.len + 1, 2 * k.bits + b) }

  function Parent(k: Key): Key
    requires k.len > 0
  {
    Key(k.len - 1, k.bits / 2)
  }

  /** The prefix of length `len` that an address lies under. */
  function Path(addr: Word32, len: nat): Key
    requires len <= 32
  {
    Key(len, Top(addr, len))
  }

  predicate Covers(k: Key, addr: Word32) { k.len <= 32 && k == Path(addr, k.len) }

  lemma HalfQuotient(x: nat, p: nat)
    requires p > 0
    ensures x / (2 * p) == x / p / 2
  {
    var q, r := x / p, x % p;
    assert x == q * p + r;
    assert q == 2 * (q / 2) + q % 2;
    assert x == (q / 2) * (2 * p) + (q % 2 * p + r);
    QuotientUnique(x, 2 * p, q / 2, q % 2 * p + r);
  }

  lemma MultipleGap(e: int, d: nat)
    requires d > 0
    ensures e >= 1 ==> e * d >= d
    ensures e <= -1 ==> e * d + d <= 0
  {
  }

  lemma QuotientUnique(x: int, d: nat, q: int, r: nat)
    requires d > 0 && x == q * d + r && r < d
    ensures x / d == q
  {
    DivMod(x, d);
    var e := x / d - q;
    assert e * d == (x / d) * d - q * d;
    MultipleGap(e, d);
  }

  /** One more bit of the address extends its path by that bit. */
  lemma PathExtends(addr: Word32, d: nat)
    requires d < 32
    ensures Path(addr, d + 1) == Extend(Path(addr, d), BitAt(addr, d))
    ensures Parent(Path(addr, d + 1)) == Path(addr, d)
  {
    HalfQuotient(addr, Pow2(31 - d));
  }

  lemma {:induction false} Pow2Of32()
    ensures Pow2(32) == 0x1_0000_0000
  {
    assert Pow2(8) == 256;
    assert Pow2(16) == 256 * Pow2(8);
    assert Pow2(24) == 256 * Pow2(16);
    assert Pow2(32) == 256 * Pow2(24);
  }

  lemma PathStart(addr: Word32)
    ensures Path(addr, 0) == Key(0, 0)
  {
    Pow2Of32();
  }

  /** The lowest address under a prefix. */
  function Value(k: Key): int
    requires k.len <= 32
  {
    k.bits * Pow2(32 - k.len)
  }

  /** `prefix & mask`. */
  function Masked(prefix: Word32, plen: nat): (m: Word32)
    requires plen <= 32
  {
    MaskedBound(prefix, plen);
    Top(prefix, plen) * Pow2(32 - plen)
  }

  lemma MaskedBound(prefix: Word32, plen: nat)
    requires plen <= 32
    ensures 0 <= Top(prefix, plen) * Pow2(32 - plen) <= prefix
  {
    var p := Pow2(32 - plen);
    DivMod(prefix, p);
    MultipleGap(prefix / p, p);
  }

  lemma MaskedPath(prefix: Word32, plen: nat)
    requires plen <= 32
    ensures Path(Masked(prefix, plen), plen) == Path(prefix, plen)
    ensures Masked(prefix, plen) == Value(Path(prefix, plen))
  {
    var p := Pow2(32 - plen);
    MaskedBound(prefix, plen);
    QuotientUnique(Top(prefix, plen) * p, p, Top(prefix, plen), 0);
  }

  // ---------------------------------------------------------------- the longest match

  /** What a route says; the prefix it belongs to is its key. */
  datatype Route = Route(nextHop: Word32, dev: nat, connected: bool)

  /** `k` is the longest prefix in the table that covers `addr`. */
  ghost predicate Longest(routes: map<Key, Route>, addr: Word32, k: Key) {
    k in routes && Covers(k, addr) && forall j :: j in routes && Covers(j, addr) ==> j.len <= k.len
  }

  /** `r` is what section 5.2.4.3 of RFC 1812 asks of a lookup: the longest match, or none. */
  ghost predicate IsMatch(routes: map<Key, Route>, addr: Word32, r: Option<Route>) {
    match r
    case None => forall k :: k in routes ==> !Covers(k, addr)
    case Some(route) => exists k :: Longest(routes, addr, k) && routes[k] == route
  }

  /** The match is unique. */
  lemma MatchUnique(routes: map<Key, Route>, addr: Word32, r: Option<Route>, r': Option<Route>)
    requires IsMatch(routes, addr, r) && IsMatch(routes, addr, r')
    ensures r == r'
  {
  }

  /** Removing a prefix that is not the match of an address leaves the match of that address alone. */
  lemma DelChangesOnlyItsOwn(routes: map<Key, Route>, k: Key, addr: Word32, r: Option<Route>)
    requires IsMatch(routes, addr, r) && !Longest(routes, addr, k)
    ensures IsMatch(routes - {k}, addr, r)
  {
    if r.Some? {
      var j :| Longest(routes, addr, j) && routes[j] == r.value;
      assert Longest(routes - {k}, addr, j);
    }
  }

  /** Removing the match of an address brings back the next shorter one, or none if there was no other. */
  lemma DelRestoresShorter(routes: map<Key, Route>, k: Key, addr: Word32, r: Option<Route>)
    requires Longest(routes, addr, k) && IsMatch(routes - {k}, addr, r)
    ensures r.None? <==> forall j :: j in routes && Covers(j, addr) ==> j == k
    ensures r.Some? ==> exists j: Key :: j.len < k.len && Longest(routes - {k}, addr, j) && routes[j] == r.value
  {
    if r.Some? {
      var j :| Longest(routes - {k}, addr, j) && (routes - {k})[j] == r.value;
      assert j in routes && Covers(j, addr) && j != k;
    }
  }

  /** One call on the table. */
  datatype Op = Insert(prefix: Word32, plen: nat, route: Route) | Remove(prefix: Word32, plen: nat)

  /** What a call does to the map of routes. */
  function Apply(routes: map<Key, Route>, op: Op): map<Key, Route> {
    if op.plen > 32 then routes
    else
      var k := Path(op.prefix, op.plen);
      match op
      case Insert(_, _, route) => if k in routes || |routes| < MAX_ROUTES then routes[k := route] else routes
      case Remove(_, _) => routes - {k}
  }

  function Replay(routes: map<Key, Route>, ops: seq<Op>): map<Key, Route> {
    if ops == [] then routes else Apply(Replay(routes, ops[..|ops| - 1]), ops[|ops| - 1])
  }

  // ---------------------------------------------------------------- the trie

  class Entry {
    var inUse: bool
    var prefix: Word32
    var plen: nat
    var nextHop: Word32
    var dev: nat
    var connected: bool

    constructor ()
      ensures !inUse
    {
      inUse, prefix, plen, nextHop, dev, connected := false, 0, 0, 0, 0, false;
    }
  }

  class Node {
    var zero: Node?
    var one: Node?
    var entry: Entry?

    constructor ()
      ensures zero == null && one == null && entry == null
    {
      zero, one, entry := null, null, null;
    }

    function Child(b: nat): Node?
      reads this
    {
      if b == 0 then zero else one
    }

    /** Neither an entry nor a child. */
    predicate Empty()
      reads this
    {
      entry == null && zero == null && one == null
    }
  }

  /** A node and what it holds, as a value. */
  datatype Cell = Cell(node: Node, zero: Node?, one: Node?, entry: Entry?) {
    function Child(b: nat): Node? { if b == 0 then zero else one }
    function WithChild(b: nat, c: Node?): Cell { if b == 0 then this.(zero := c) else this.(one := c) }
  }

  function NodeOf(cells: map<Key, Cell>, k: Key): Node? { if k in cells then cells[k].node else null }

  ghost predicate ParentClosed(cells: map<Key, Cell>) {
    && (forall k {:trigger Parent(k)} :: k in cells && k.len > 0 ==> Parent(k) in cells)
    && (forall k :: k in cells ==> k.len <= 32 && (k.len == 0 ==> k == Key(0, 0)))
  }

  ghost predicate Injective(cells: map<Key, Cell>) {
    forall k, j {:trigger cells[k], cells[j]} :: k in cells && j in cells && k != j ==> cells[k].node != cells[j].node
  }

  /** Every child pointer leads where the cells say, except that the link to `cut` may dangle. */
  ghost predicate Linked(cells: map<Key, Cell>, cut: Option<Key>) {
    forall k, b {:trigger cells[k].Child(b)} :: k in cells && 0 <= b < 2 && cut != Some(Extend(k, b)) ==>
      cells[k].Child(b) == NodeOf(cells, Extend(k, b))
  }

  /** The cells form a trie below `root`. */
  ghost predicate WellShaped(root: Node?, cells: map<Key, Cell>, cut: Option<Key>) {
    root == NodeOf(cells, Key(0, 0)) && ParentClosed(cells) && Injective(cells) && Linked(cells, cut)
  }

  /** What a pool entry records, as a value. */
  datatype Slot = Slot(inUse: bool, prefix: Word32, plen: nat, nextHop: Word32, dev: nat, connected: bool) {
    /** The prefix it belongs to. */
    function Prefix(): Key { if plen <= 32 then Path(prefix, plen) else Key(33, 0) }
    /** It is the entry of a route for `k`, stored with the prefix masked. */
    predicate Records(k: Key) { inUse && Prefix() == k && k.len <= 32 && prefix == Value(k) && plen == k.len }

    function Says(): Route { Route(nextHop, dev, connected) }
  }

  /** Entries in use and nodes with an entry correspond one to one. */
  ghost predicate Paired(cells: map<Key, Cell>, slots: map<Entry, Slot>) {
    && (forall k {:trigger cells[k].entry} :: k in cells && cells[k].entry != null ==>
          cells[k].entry in slots && slots[cells[k].entry].Records(k))
    && (forall e {:trigger slots[e].inUse} :: e in slots && slots[e].inUse ==>
          slots[e].Prefix() in cells && cells[slots[e].Prefix()].entry == e)
  }

  ghost function RoutesOf(cells: map<Key, Cell>, slots: map<Entry, Slot>): map<Key, Route> {
    map k | k in cells && cells[k].entry != null && cells[k].entry in slots :: slots[cells[k].entry].Says()
  }

  /** How many entries of a pool are in use, and the prefixes they record. */
  ghost function Used(pool: seq<Entry>, slots: map<Entry, Slot>): nat
    requires forall e :: e in pool ==> e in slots
  {
    if pool == [] then 0 else Used(pool[1..], slots) + (if slots[pool[0]].inUse then 1 else 0)
  }

  ghost function UsedKeys(pool: seq<Entry>, slots: map<Entry, Slot>): set<Key>
    requires forall e :: e in pool ==> e in slots
  {
    set e | e in pool && slots[e].inUse :: slots[e].Prefix()
  }

  lemma {:induction false} UsedKeysAre(pool: seq<Entry>, slots: map<Entry, Slot>)
    requires forall e :: e in pool ==> e in slots
    ensures Used(pool, slots) <= |pool|
    ensures Used(pool, slots) == |pool| <==> forall i :: 0 <= i < |pool| ==> slots[pool[i]].inUse
  {
    if pool != [] {
      UsedKeysAre(pool[1..], slots);
      if Used(pool, slots) == |pool| {
        forall i | 0 <= i < |pool| ensures slots[pool[i]].inUse {
          assert i > 0 ==> pool[i] == pool[1..][i - 1];
        }
      }
    }
  }

  /** Two entries in use never record the same prefix. */
  lemma PrefixesDiffer(cells: map<Key, Cell>, slots: map<Entry, Slot>, e: Entry, x: Entry)
    requires Paired(cells, slots) && e in slots && x in slots && slots[e].inUse && slots[x].inUse && e != x
    ensures slots[e].Prefix() != slots[x].Prefix()
  {
  }

  lemma {:induction false} UsedCount(cells: map<Key, Cell>, slots: map<Entry, Slot>, pool: seq<Entry>)
    requires Paired(cells, slots) && (forall e :: e in pool ==> e in slots)
    requires forall i, j :: 0 <= i < j < |pool| ==> pool[i] != pool[j]
    ensures |UsedKeys(pool, slots)| == Used(pool, slots)
    decreases |pool|
  {
    hide Paired, Slot.Prefix;
    if pool != [] {
      var e, rest := pool[0], pool[1..];
      UsedCount(cells, slots, rest);
      var keys := UsedKeys(rest, slots);
      if slots[e].inUse {
        forall x | x in rest && slots[x].inUse ensures slots[x].Prefix() != slots[e].Prefix() {
          PrefixesDiffer(cells, slots, e, x);
        }
        assert UsedKeys(pool, slots) == keys + {slots[e].Prefix()};
      } else {
        assert UsedKeys(pool, slots) == keys;
      }
    }
  }

  lemma UsedAreRoutes(cells: map<Key, Cell>, slots: map<Entry, Slot>, pool: seq<Entry>)
    requires Paired(cells, slots) && forall e :: e in pool <==> e in slots
    ensures RoutesOf(cells, slots).Keys == UsedKeys(pool, slots)
  {
    hide Slot.Prefix;
    var r := RoutesOf(cells, slots);
    forall k | k in r ensures k in UsedKeys(pool, slots) {
      assert cells[k].entry != null;
    }
    forall k | k in UsedKeys(pool, slots) ensures k in r {
      var e :| e in pool && slots[e].inUse && slots[e].Prefix() == k;
    }
  }

  lemma ExtendUnique(k: Key, b: nat, j: Key, a: nat)
    requires a < 2 && b < 2
    ensures Extend(k, b) == Extend(j, a) <==> k == j && a == b
    ensures Parent(Extend(k, b)) == k
  {
  }

  /** The cells after a leaf `c` has been linked below `k`. */
  ghost function Grown(cells: map<Key, Cell>, k: Key, b: nat, c: Node): map<Key, Cell>
    requires k in cells
  {
    cells[k := cells[k].WithChild(b, c)][Extend(k, b) := Cell(c, null, null, null)]
  }

  lemma GrownClosed(cells: map<Key, Cell>, k: Key, b: nat, c: Node)
    requires ParentClosed(cells) && k in cells && k.len < 32 && b < 2
    ensures ParentClosed(Grown(cells, k, b, c))
  {
    var cells' := Grown(cells, k, b, c);
    ExtendUnique(k, b, k, b);
    forall j | j in cells' && j.len > 0 ensures Parent(j) in cells' {
      assert j != Extend(k, b) ==> Parent(j) in cells;
    }
  }

  lemma GrownLinked(cells: map<Key, Cell>, k: Key, b: nat, c: Node)
    requires ParentClosed(cells) && Linked(cells, None) && k in cells && b < 2 && Extend(k, b) !in cells
    ensures Linked(Grown(cells, k, b, c), None)
  {
    hide Extend;
    var cells' := Grown(cells, k, b, c);
    forall j, a | j in cells' && 0 <= a < 2 ensures cells'[j].Child(a) == NodeOf(cells', Extend(j, a)) {
      ExtendUnique(k, b, j, a);
      if j in cells {
        assert cells[j].Child(a) == NodeOf(cells, Extend(j, a));
      } else {
        Childless(cells, j, a);
        NeverOwnChild(j, a);
      }
    }
  }

  lemma GrownPaired(cells: map<Key, Cell>, slots: map<Entry, Slot>, k: Key, b: nat, c: Node)
    requires Paired(cells, slots) && k in cells && b < 2 && Extend(k, b) !in cells
    ensures Paired(Grown(cells, k, b, c), slots) && RoutesOf(Grown(cells, k, b, c), slots) == RoutesOf(cells, slots)
  {
  }

  /** The entry of one node is replaced, and the pool with it. */
  lemma InstalledPaired(cells: map<Key, Cell>, slots: map<Entry, Slot>, k: Key, e: Entry, slot: Slot)
    requires Paired(cells, slots) && k in cells && e in slots && slot.Records(k)
    requires cells[k].entry == e || (cells[k].entry == null && !slots[e].inUse)
    ensures Paired(cells[k := cells[k].(entry := e)], slots[e := slot])
  {
    hide Slot.Prefix;
    var cells' := cells[k := cells[k].(entry := e)];
    var slots' := slots[e := slot];
    forall j | j in cells' && cells'[j].entry != null
      ensures cells'[j].entry in slots' && slots'[cells'[j].entry].Records(j)
    {
      if j != k {
        assert cells[j].entry != e;
      }
    }
    forall x | x in slots' && slots'[x].inUse
      ensures slots'[x].Prefix() in cells' && cells'[slots'[x].Prefix()].entry == x
    {
      if x != e {
        assert slots[x].inUse && slots[x].Prefix() != k;
      }
    }
  }

  lemma InstalledRoutes(cells: map<Key, Cell>, slots: map<Entry, Slot>, k: Key, e: Entry, slot: Slot)
    requires Paired(cells, slots) && k in cells && e in slots
    requires cells[k].entry == e || (cells[k].entry == null && !slots[e].inUse)
    ensures RoutesOf(cells[k := cells[k].(entry := e)], slots[e := slot]) == RoutesOf(cells, slots)[k := slot.Says()]
  {
    hide Slot.Prefix;
    var cells', slots' := cells[k := cells[k].(entry := e)], slots[e := slot];
    var r, want := RoutesOf(cells', slots'), RoutesOf(cells, slots)[k := slot.Says()];
    forall j | j in cells ensures j in r <==> j in want {
      assert j != k ==> cells[j].entry != e;
    }
    forall j | j in cells && j in r ensures r[j] == want[j] {
      assert j != k ==> cells[j].entry != e;
    }
  }

  /** A route is taken out: its node loses the entry and the entry returns to the pool. */
  lemma RemovedPaired(cells: map<Key, Cell>, slots: map<Entry, Slot>, k: Key)
    requires Paired(cells, slots) && k in cells && cells[k].entry != null
    ensures var e := cells[k].entry;
      var cells', slots' := cells[k := cells[k].(entry := null)], slots[e := slots[e].(inUse := false)];
      Paired(cells', slots') && RoutesOf(cells', slots') == RoutesOf(cells, slots) - {k}
  {
    hide Slot.Prefix;
    var e := cells[k].entry;
    var cells', slots' := cells[k := cells[k].(entry := null)], slots[e := slots[e].(inUse := false)];
    forall j | j in cells && j != k ensures cells[j].entry != e {
    }
    forall x | x in slots' && slots'[x].inUse
      ensures slots'[x].Prefix() in cells' && cells'[slots'[x].Prefix()].entry == x {
      assert slots[x].inUse && x != e;
    }
    assert RoutesOf(cells', slots').Keys == RoutesOf(cells, slots).Keys - {k};
  }

  lemma PrunedClosed(cells: map<Key, Cell>, k: Key)
    requires ParentClosed(cells) && Extend(k, 0) !in cells && Extend(k, 1) !in cells
    ensures ParentClosed(cells - {k})
  {
    var cells' := cells - {k};
    forall j | j in cells' && j.len > 0 ensures Parent(j) in cells' {
      assert Parent(j) in cells;
      assert j == Extend(Parent(j), j.bits % 2);
    }
  }

  lemma PrunedLinked(cells: map<Key, Cell>, k: Key)
    requires Linked(cells, None)
    ensures Linked(cells - {k}, Some(k))
  {
    hide Extend;
    var cells' := cells - {k};
    forall j, a | j in cells' && 0 <= a < 2 && Extend(j, a) != k
      ensures cells'[j].Child(a) == NodeOf(cells', Extend(j, a))
    {
      assert cells[j].Child(a) == NodeOf(cells, Extend(j, a));
    }
  }

  /** A node without entry and children is dropped; only the link to it is left dangling. */
  lemma PrunedShape(root: Node?, cells: map<Key, Cell>, k: Key)
    requires WellShaped(root, cells, None) && k in cells && k.len > 0
    requires cells[k].Child(0) == null && cells[k].Child(1) == null
    ensures WellShaped(root, cells - {k}, Some(k))
  {
    hide ParentClosed, Extend;
    assert cells[k].Child(0) == NodeOf(cells, Extend(k, 0)) && cells[k].Child(1) == NodeOf(cells, Extend(k, 1));
    PrunedClosed(cells, k);
    PrunedLinked(cells, k);
  }

  lemma PrunedPaired(cells: map<Key, Cell>, slots: map<Entry, Slot>, k: Key)
    requires Paired(cells, slots) && k in cells && cells[k].entry == null
    ensures Paired(cells - {k}, slots) && RoutesOf(cells - {k}, slots) == RoutesOf(cells, slots)
  {
    hide Slot.Prefix;
    assert RoutesOf(cells - {k}, slots).Keys == RoutesOf(cells, slots).Keys;
  }

  /** The dangling link is cleared. */
  lemma UnlinkedShape(root: Node?, cells: map<Key, Cell>, k: Key, b: nat)
    requires WellShaped(root, cells, Some(Extend(k, b))) && k in cells && b < 2 && Extend(k, b) !in cells
    ensures WellShaped(root, cells[k := cells[k].WithChild(b, null)], None)
  {
    var cells' := cells[k := cells[k].WithChild(b, null)];
    forall j, a | j in cells' && 0 <= a < 2 ensures cells'[j].Child(a) == NodeOf(cells', Extend(j, a)) {
      ExtendUnique(k, b, j, a);
      if !(j == k && a == b) {
        assert cells[j].Child(a) == NodeOf(cells, Extend(j, a));
      }
    }
  }

  lemma UnlinkedPaired(cells: map<Key, Cell>, slots: map<Entry, Slot>, k: Key, b: nat)
    requires Paired(cells, slots) && k in cells
    ensures Paired(cells[k := cells[k].WithChild(b, null)], slots)
    ensures RoutesOf(cells[k := cells[k].WithChild(b, null)], slots) == RoutesOf(cells, slots)
  {
    hide Slot.Prefix;
    var cells' := cells[k := cells[k].WithChild(b, null)];
    assert cells'.Keys == cells.Keys && forall j :: j in cells ==> cells'[j].entry == cells[j].entry;
  }

  lemma EntryShape(root: Node?, cells: map<Key, Cell>, cut: Option<Key>, k: Key, e: Entry?)
    requires WellShaped(root, cells, cut) && k in cells
    ensures WellShaped(root, cells[k := cells[k].(entry := e)], cut)
  {
    var cells' := cells[k := cells[k].(entry := e)];
    forall j, a | j in cells' && 0 <= a < 2 && cut != Some(Extend(j, a))
      ensures cells'[j].Child(a) == NodeOf(cells', Extend(j, a))
    {
      assert cells[j].Child(a) == NodeOf(cells, Extend(j, a));
    }
  }

  lemma Childless(cells: map<Key, Cell>, k: Key, b: nat)
    requires ParentClosed(cells) && k !in cells && b < 2
    ensures Extend(k, b) !in cells
  {
    ExtendUnique(k, b, k, b);
  }

  lemma NeverOwnChild(k: Key, b: nat)
    ensures Extend(k, b) != k
  {
  }

  lemma GrownShape(root: Node?, cells: map<Key, Cell>, k: Key, b: nat, c: Node)
    requires WellShaped(root, cells, None) && k in cells && k.len < 32 && b < 2 && Extend(k, b) !in cells
    requires forall j :: j in cells ==> cells[j].node != c
    ensures WellShaped(root, Grown(cells, k, b, c), None)
  {
    hide Linked, ParentClosed;
    GrownClosed(cells, k, b, c);
    GrownLinked(cells, k, b, c);
  }

  /** Every node hangs below the root. */
  lemma {:induction false} RootFirst(cells: map<Key, Cell>, k: Key)
    requires ParentClosed(cells) && k in cells
    ensures Key(0, 0) in cells
    decreases k.len
  {
    if k.len > 0 {
      RootFirst(cells, Parent(k));
    }
  }

  lemma Injected(root: Node?, cut: Option<Key>, cells: map<Key, Cell>)
    requires WellShaped(root, cells, cut)
    ensures Injective(cells)
  {
  }

  // ---------------------------------------------------------------- the walk

  /** The prefixes with a route below `k`, in the order `walk_rec` visits them. */
  ghost function PreOrder(cells: map<Key, Cell>, k: Key): seq<Key>
    decreases 33 - k.len
  {
    if k !in cells || k.len > 32 then []
    else (if cells[k].entry != null then [k] else []) + PreOrder(cells, Extend(k, 0)) + PreOrder(cells, Extend(k, 1))
  }

  /** Ascending by prefix value, then by length. */
  predicate Before(j: Key, k: Key) {
    j.len <= 32 && k.len <= 32 && (Value(j) < Value(k) || (Value(j) == Value(k) && j.len < k.len))
  }

  predicate Ascending(ks: seq<Key>) { forall i, j :: 0 <= i < j < |ks| ==> Before(ks[i], ks[j]) }

  /** A prefix splits its address range evenly between its two extensions. */
  lemma ValueSplits(k: Key)
    requires k.len < 32
    ensures Value(Extend(k, 0)) == Value(k) && Value(Extend(k, 1)) == Value(k) + Pow2(31 - k.len)
    ensures Pow2(32 - k.len) == 2 * Pow2(31 - k.len)
  {
    var p := Pow2(31 - k.len);
    assert Pow2(32 - k.len) == 2 * p;
    assert (2 * k.bits) * p == k.bits * (2 * p);
    assert (2 * k.bits + 1) * p == k.bits * (2 * p) + p;
  }

  predicate Within(ks: seq<Key>, k: Key)
    requires k.len <= 32
  {
    forall j :: j in ks ==> j.len <= 32 && k.len <= j.len && Value(k) <= Value(j) < Value(k) + Pow2(32 - k.len)
  }

  lemma AscendingJoin(k: Key, own: seq<Key>, low: seq<Key>, high: seq<Key>)
    requires k.len < 32 && (own == [] || own == [k]) && Ascending(low) && Ascending(high)
    requires Within(low, Extend(k, 0)) && Within(high, Extend(k, 1))
    ensures Ascending(own + low + high) && Within(own + low + high, k)
  {
    hide Value, Extend;
    ValueSplits(k);
    ExtendLength(k);
    var ks := own + low + high;
    forall i, j | 0 <= i < j < |ks| ensures Before(ks[i], ks[j]) {
      if j < |own| + |low| {
        assert ks[j] in low;
        if i >= |own| {
          assert Before(low[i - |own|], low[j - |own|]);
        }
      } else {
        assert ks[j] in high;
        if |own| <= i < |own| + |low| {
          assert ks[i] in low;
        } else if i >= |own| + |low| {
          assert Before(high[i - |own| - |low|], high[j - |own| - |low|]);
        }
      }
    }
  }

  lemma Bounded(cells: map<Key, Cell>, k: Key)
    requires ParentClosed(cells) && k in cells
    ensures k.len <= 32
  {
  }

  lemma ExtendLength(k: Key)
    ensures Extend(k, 0).len == k.len + 1 && Extend(k, 1).len == k.len + 1
  {
  }

  lemma {:induction false} PreOrderAscends(cells: map<Key, Cell>, k: Key)
    requires k.len <= 32 && ParentClosed(cells)
    ensures Ascending(PreOrder(cells, k)) && Within(PreOrder(cells, k), k)
    decreases 33 - k.len
  {
    hide Value, Before;
    if k in cells {
      var own := if cells[k].entry != null then [k] else [];
      if k.len < 32 {
        PreOrderAscends(cells, Extend(k, 0));
        PreOrderAscends(cells, Extend(k, 1));
        AscendingJoin(k, own, PreOrder(cells, Extend(k, 0)), PreOrder(cells, Extend(k, 1)));
      } else {
        assert PreOrder(cells, k) == own;
      }
    }
  }

  /** A route is visited from its own node, hence from every node above it. */
  lemma {:induction false} VisitedFromAbove(cells: map<Key, Cell>, j: Key, k: Key)
    requires ParentClosed(cells) && k in cells && j in PreOrder(cells, k)
    ensures j in PreOrder(cells, Key(0, 0))
    decreases k.len
  {
    if k.len > 0 {
      var p := Parent(k);
      assert k == Extend(p, k.bits % 2);
      assert j in PreOrder(cells, p);
      VisitedFromAbove(cells, j, p);
    }
  }

  lemma {:induction false} PreOrderSound(cells: map<Key, Cell>, k: Key)
    ensures forall j :: j in PreOrder(cells, k) ==> j in cells && cells[j].entry != null
    decreases 33 - k.len
  {
    if k in cells && k.len <= 32 {
      PreOrderSound(cells, Extend(k, 0));
      PreOrderSound(cells, Extend(k, 1));
    }
  }

  /** The walk from the root visits every route once, in ascending order of prefix and length. */
  lemma WalkVisitsAll(cells: map<Key, Cell>, slots: map<Entry, Slot>)
    requires ParentClosed(cells) && Paired(cells, slots)
    ensures var ks := PreOrder(cells, Key(0, 0));
      Ascending(ks) && forall k :: k in ks <==> k in RoutesOf(cells, slots)
  {
    hide Value, Slot.Prefix;
    PreOrderAscends(cells, Key(0, 0));
    PreOrderSound(cells, Key(0, 0));
    forall k | k in RoutesOf(cells, slots) ensures k in PreOrder(cells, Key(0, 0)) {
      VisitedFromAbove(cells, k, k);
    }
  }

  class Table {
    var root: Node?
    const pool: seq<Entry>
    /** The nodes by the prefix they stand for. */
    ghost var nodes: map<Key, Node>

    /** `fib_init`. */
    constructor ()
      ensures Valid() && Routes() == map[] && nodes == map[] && fresh(pool)
    {
      var es: seq<Entry> := [];
      for i := 0 to MAX_ROUTES
        invariant |es| == i && fresh(es)
        invariant forall a, b :: 0 <= a < b < i ==> es[a] != es[b]
        invariant forall e :: e in es ==> !e.inUse
      {
        var e := new Entry();
        es := es + [e];
      }
      root, pool, nodes := null, es, map[];
    }

    ghost function Cells(): map<Key, Cell>
      reads this, nodes.Values
    {
      map k | k in nodes :: Cell(nodes[k], nodes[k].zero, nodes[k].one, nodes[k].entry)
    }

    ghost predicate Shape(cut: Option<Key>)
      reads this, nodes.Values
    {
      WellShaped(root, Cells(), cut)
    }

    ghost function Slots(): map<Entry, Slot>
      reads this, pool
    {
      map e | e in pool :: Slot(e.inUse, e.prefix, e.plen, e.nextHop, e.dev, e.connected)
    }

    ghost predicate Pooled()
      reads this, nodes.Values, pool
    {
      && |pool| == MAX_ROUTES && (forall i, j :: 0 <= i < j < |pool| ==> pool[i] != pool[j])
      && Paired(Cells(), Slots())
    }

    ghost predicate Valid()
      reads this, nodes.Values, pool
    {
      Shape(None) && Pooled()
    }

    /** The installed routes. */
    ghost function Routes(): map<Key, Route>
      reads this, nodes.Values, pool
    {
      RoutesOf(Cells(), Slots())
    }

    /** What an entry found by a lookup says. */
    static function Answer(e: Entry?): Option<Route>
      reads e
    {
      if e == null then None else Some(Route(e.nextHop, e.dev, e.connected))
    }

    // -------------------------------------------------------------- lookup

    /** A covering prefix in the trie has its whole path in the trie. */
    lemma {:induction false} PathPresent(addr: Word32, len: nat, d: nat)
      requires Shape(None) && d <= len <= 32 && Path(addr, len) in nodes
      ensures Path(addr, d) in nodes
      decreases len
    {
      if d < len {
        PathExtends(addr, len - 1);
        PathPresent(addr, len - 1, d);
      }
    }

    ghost predicate HasRoute(k: Key)
      reads this, nodes.Values
    {
      k in Cells() && Cells()[k].entry != null
    }

    /** One step down the trie along an address. */
    lemma Descend(addr: Word32, d: nat)
      requires Shape(None) && d < 32 && Path(addr, d) in nodes
      ensures nodes[Path(addr, d)].Child(BitAt(addr, d)) ==
        if Path(addr, d + 1) in nodes then nodes[Path(addr, d + 1)] else null
    {
      hide Top, BitAt;
      PathExtends(addr, d);
      assert Cells()[Path(addr, d)].Child(BitAt(addr, d)) == nodes[Path(addr, d)].Child(BitAt(addr, d));
    }

    lemma Distinct(k: Key)
      requires Injective(Cells()) && k in nodes
      ensures forall j :: j in nodes && j != k ==> nodes[j] != nodes[k]
    {
      assert Cells()[k].node == nodes[k];
      forall j | j in nodes && j != k ensures nodes[j] != nodes[k] {
        assert Cells()[j].node == nodes[j];
      }
    }

    lemma Start(addr: Word32)
      requires Shape(None)
      ensures root == if Path(addr, 0) in nodes then nodes[Path(addr, 0)] else null
    {
      PathStart(addr);
    }

    /** Below a missing node there is no route. */
    lemma NothingBelow(addr: Word32, d: nat)
      requires Shape(None) && d <= 32 && Path(addr, d) !in nodes
      ensures forall j {:trigger Path(addr, j)} :: d <= j <= 32 ==> !HasRoute(Path(addr, j))
    {
      forall j | d <= j <= 32 ensures !HasRoute(Path(addr, j)) {
        if Path(addr, j) in nodes {
          PathPresent(addr, j, d);
        }
      }
    }

    /** The last route seen on the way down is the longest match. */
    lemma LastSeenMatches(dst: Word32, best: Entry?, len: int)
      requires Valid() && -1 <= len <= 32 && (best == null <==> len == -1)
      requires best != null ==> Path(dst, len) in nodes && nodes[Path(dst, len)].entry == best
      requires forall j {:trigger Path(dst, j)} :: len < j <= 32 ==> !HasRoute(Path(dst, j))
      ensures IsMatch(Routes(), dst, Answer(best))
    {
      hide Top;
      forall k | k in Routes() && Covers(k, dst) ensures k.len <= len {
        assert HasRoute(Path(dst, k.len));
      }
      if best != null {
        assert Longest(Routes(), dst, Path(dst, len));
      }
    }

    /** `fib_lookup`. */
    method Lookup(dst: Word32) returns (best: Entry?)
      requires Valid()
      ensures IsMatch(Routes(), dst, Answer(best))
    {
      hide Top, BitAt, Path, Shape, Pooled, Routes, IsMatch;
      Start(dst);
      var n := root;
      best := null;
      ghost var len := -1;
      var depth := 0;
      while n != null
        invariant depth <= 32 && -1 <= len < depth && (best == null <==> len == -1)
        invariant n == if Path(dst, depth) in nodes then nodes[Path(dst, depth)] else null
        invariant best != null ==> Path(dst, len) in nodes && nodes[Path(dst, len)].entry == best
        invariant forall j {:trigger Path(dst, j)} :: len < j < depth ==> !HasRoute(Path(dst, j))
        decreases 32 - depth
      {
        if n.entry != null {
          best, len := n.entry, depth;
        }
        if depth == 32 {
          break;
        }
        Descend(dst, depth);
        n := n.Child(BitAt(dst, depth));
        depth := depth + 1;
      }
      if n == null {
        NothingBelow(dst, depth);
      }
      LastSeenMatches(dst, best, len);
    }

    // -------------------------------------------------------------- the pool

    /** The table holds as many routes as pool entries are in use: it is full exactly when none is free. */
    lemma PoolCounts()
      requires Pooled()
      ensures |Routes()| == Used(pool, Slots()) <= MAX_ROUTES
      ensures |Routes()| == MAX_ROUTES <==> forall e :: e in pool ==> e.inUse
    {
      hide Paired, RoutesOf, UsedKeys;
      UsedKeysAre(pool, Slots());
      UsedCount(Cells(), Slots(), pool);
      UsedAreRoutes(Cells(), Slots(), pool);
      assert |Routes().Keys| == |Routes()|;
      assert forall i :: 0 <= i < |pool| ==> pool[i] in pool;
      assert forall e :: e in pool ==> Slots()[e].inUse == e.inUse;
    }

    /** `pool_alloc`. */
    method PoolAlloc() returns (e: Entry?)
      ensures e != null ==> e in pool && !e.inUse
      ensures e == null ==> forall x :: x in pool ==> x.inUse
    {
      for i := 0 to |pool|
        invariant forall j :: 0 <= j < i ==> pool[j].inUse
      {
        if !pool[i].inUse {
          return pool[i];
        }
      }
      return null;
    }

    // -------------------------------------------------------------- insertion

    /** Set a child pointer. */
    method SetChild(n: Node, b: nat, c: Node?, ghost k: Key)
      requires Injective(Cells()) && k in nodes && n == nodes[k]
      modifies n`zero, n`one
      ensures Cells() == old(Cells())[k := old(Cells())[k].WithChild(b, c)] && Slots() == old(Slots())
    {
      hide Injective;
      Distinct(k);
      if b == 0 {
        n.zero := c;
      } else {
        n.one := c;
      }
    }

    /** Record a new node. */
    ghost method AddNode(c: Node, k: Key)
      modifies this`nodes
      ensures nodes == old(nodes)[k := c]
      ensures Cells() == old(Cells())[k := Cell(c, c.zero, c.one, c.entry)] && Slots() == old(Slots())
    {
      nodes := nodes[k := c];
    }

    /** The node one bit further down, created when missing. */
    method Grow(n: Node, addr: Word32, d: nat) returns (c: Node)
      requires Valid() && d < 32 && Path(addr, d) in nodes && n == nodes[Path(addr, d)]
      modifies this`nodes, n
      ensures Valid() && Routes() == old(Routes())
      ensures Path(addr, d + 1) in nodes && c == nodes[Path(addr, d + 1)]
      ensures forall x :: x in nodes.Values ==> x in old(nodes.Values) || fresh(x)
    {
      hide Path, BitAt, Extend, WellShaped, Paired, RoutesOf, Injective;
      ghost var cells, slots := Cells(), Slots();
      Descend(addr, d);
      Injected(root, None, cells);
      PathExtends(addr, d);
      PathLength(addr, d);
      var b := BitAt(addr, d);
      var next := n.Child(b);
      if next != null {
        return next;
      }
      c := new Node();
      SetChild(n, b, c, Path(addr, d));
      AddNode(c, Path(addr, d + 1));
      GrownShape(root, cells, Path(addr, d), b, c);
      GrownPaired(cells, slots, Path(addr, d), b, c);
    }

    lemma PathLength(addr: Word32, d: nat)
      requires d <= 32
      ensures Path(addr, d).len == d
    {
    }

    method EnsureRoot()
      requires Valid()
      modifies this`root, this`nodes
      ensures Valid() && Routes() == old(Routes())
      ensures Key(0, 0) in nodes && root == nodes[Key(0, 0)]
      ensures forall x :: x in nodes.Values ==> x in old(nodes.Values) || fresh(x)
    {
      if root == null {
        forall k | k in nodes ensures Key(0, 0) in nodes {
          RootFirst(Cells(), k);
        }
        assert nodes == map[];
        root := new Node();
        nodes := map[Key(0, 0) := root];
      }
    }

    /** The node of a prefix, created together with its path when missing. */
    method Reach(addr: Word32, plen: nat) returns (n: Node)
      requires Valid() && plen <= 32
      modifies this, nodes.Values
      ensures Valid() && Routes() == old(Routes())
      ensures Path(addr, plen) in nodes && n == nodes[Path(addr, plen)]
      ensures forall x :: x in nodes.Values ==> x in old(nodes.Values) || fresh(x)
    {
      hide Top, BitAt, Path, Shape, Pooled, Routes;
      Origin(addr);
      EnsureRoot();
      n := root;
      for d := 0 to plen
        invariant Valid() && Routes() == old(Routes())
        invariant Path(addr, d) in nodes && n == nodes[Path(addr, d)]
        invariant forall x :: x in nodes.Values ==> x in old(nodes.Values) || fresh(x)
      {
        n := Grow(n, addr, d);
      }
    }

    lemma Origin(addr: Word32)
      ensures Path(addr, 0) == Key(0, 0)
    {
      PathStart(addr);
    }

    /** Fill in a pool entry. */
    method Fill(e: Entry, prefix: Word32, plen: nat, nextHop: Word32, dev: nat, connected: bool)
      requires e in pool
      modifies e
      ensures Slots() == old(Slots())[e := Slot(true, prefix, plen, nextHop, dev, connected)] && Cells() == old(Cells())
    {
      e.inUse := true;
      e.prefix, e.plen, e.nextHop, e.dev, e.connected := prefix, plen, nextHop, dev, connected;
    }

    /** Point a node at an entry, or at none. */
    method SetEntry(n: Node, e: Entry?, ghost k: Key)
      requires Injective(Cells()) && k in nodes && n == nodes[k]
      modifies n`entry
      ensures Cells() == old(Cells())[k := old(Cells())[k].(entry := e)] && Slots() == old(Slots())
    {
      hide Injective;
      Distinct(k);
      n.entry := e;
    }

    /** Write a route into the entry of a node, its own or a free one. */
    method Install(n: Node, e: Entry, prefix: Word32, plen: nat, nextHop: Word32, dev: nat, connected: bool)
      requires Valid() && plen <= 32 && Path(prefix, plen) in nodes && n == nodes[Path(prefix, plen)] && e in pool
      requires n.entry == e || (n.entry == null && !e.inUse)
      requires Path(prefix, plen).len == plen && prefix == Value(Path(prefix, plen))
      modifies n`entry, e
      ensures Valid() && Routes() == old(Routes())[Path(prefix, plen) := Route(nextHop, dev, connected)]
    {
      hide Path, WellShaped, Paired, RoutesOf, Injective;
      ghost var k, cells, slots := Path(prefix, plen), Cells(), Slots();
      Injected(root, None, cells);
      SetEntry(n, e, k);
      Fill(e, prefix, plen, nextHop, dev, connected);
      EntryShape(root, cells, None, k, e);
      ghost var slot := Slot(true, prefix, plen, nextHop, dev, connected);
      InstalledPaired(cells, slots, k, e, slot);
      InstalledRoutes(cells, slots, k, e, slot);
    }

    /**
     * `fib_add`. It succeeds for valid arguments exactly when the prefix is already installed or a pool
     * entry is free; it then replaces or adds that one route, and otherwise changes no route.
     */
    method Add(prefix: Word32, plen: nat, nextHop: Word32, dev: Option<nat>, connected: bool) returns (ok: bool)
      requires Valid()
      modifies this, nodes.Values, pool
      ensures Valid()
      ensures ok <==> plen <= 32 && dev.Some? && (Path(prefix, plen) in old(Routes()) || |old(Routes())| < MAX_ROUTES)
      ensures Routes() == if ok then old(Routes())[Path(prefix, plen) := Route(nextHop, dev.value, connected)]
        else old(Routes())
      ensures forall x :: x in nodes.Values ==> x in old(nodes.Values) || fresh(x)
    {
      hide Path, Masked, Shape, Routes, Paired, RoutesOf;
      if plen > 32 || dev.None? {
        return false;
      }
      PoolCounts();
      var masked := Masked(prefix, plen);
      MaskedPath(prefix, plen);
      PathLength(prefix, plen);
      var n := Reach(masked, plen);
      EntryRoutes(Path(prefix, plen));
      var e := n.entry;
      if e == null {
        e := PoolAlloc();
        PoolCounts();
        if e == null {
          return false;
        }
      }
      Install(n, e, masked, plen, nextHop, dev.value, connected);
      ok := true;
    }

    /** A node has an entry exactly when its prefix is installed, and the entry is then in the pool. */
    lemma EntryRoutes(k: Key)
      requires Pooled() && k in nodes
      ensures k in Routes() <==> nodes[k].entry != null
      ensures nodes[k].entry != null ==> nodes[k].entry in pool
    {
      assert Cells()[k].entry == nodes[k].entry;
    }

    // -------------------------------------------------------------- removal

    /** Take out the route of a node, if it has one. */
    method Clear(n: Node, ghost k: Key) returns (found: bool)
      requires Valid() && k in nodes && n == nodes[k]
      modifies n`entry, pool
      ensures Valid() && n.entry == null && Routes() == old(Routes()) - {k} && found == (k in old(Routes()))
    {
      hide WellShaped, Paired, Injective, RoutesOf;
      ghost var cells, slots := Cells(), Slots();
      Injected(root, None, cells);
      EntryRoutes(k);
      var e := n.entry;
      found := e != null;
      if found {
        e.inUse := false;
        assert Slots() == slots[e := slots[e].(inUse := false)] && Cells() == cells;
        SetEntry(n, null, k);
        EntryShape(root, cells, None, k, null);
        RemovedPaired(cells, slots, k);
      } else {
        assert Routes() == Routes() - {k};
      }
    }

    /** Free a node that has become empty. */
    ghost method Prune(k: Key)
      requires Valid() && k in nodes && k.len > 0
      requires nodes[k].entry == null && nodes[k].zero == null && nodes[k].one == null
      modifies this`nodes
      ensures Shape(Some(k)) && Pooled() && nodes == old(nodes) - {k} && Routes() == old(Routes())
    {
      hide WellShaped, Paired, RoutesOf;
      ghost var cells, slots := Cells(), Slots();
      nodes := nodes - {k};
      assert Cells() == cells - {k} && Slots() == slots;
      PrunedShape(root, cells, k);
      PrunedPaired(cells, slots, k);
    }

    /** Clear the link to a freed child. */
    method Unlink(n: Node, b: nat, ghost k: Key)
      requires Shape(Some(Extend(k, b))) && Pooled() && k in nodes && n == nodes[k] && b < 2 && Extend(k, b) !in nodes
      modifies n`zero, n`one
      ensures Valid() && Routes() == old(Routes())
    {
      hide WellShaped, Paired, Injective, RoutesOf, Extend;
      ghost var cells, slots := Cells(), Slots();
      Injected(root, Some(Extend(k, b)), cells);
      SetChild(n, b, null, k);
      UnlinkedShape(root, cells, k, b);
      UnlinkedPaired(cells, slots, k, b);
    }

    /** Nothing is installed below a missing child. */
    lemma NoRouteBelow(addr: Word32, d: nat, plen: nat)
      requires Valid() && d <= plen <= 32 && Path(addr, d) !in nodes
      ensures Path(addr, plen) !in Routes()
    {
      hide Path, WellShaped;
      NothingBelow(addr, d);
      assert !HasRoute(Path(addr, plen));
    }

    /** No node on the path from depth `from` on is empty: each has an entry or a child. */
    ghost predicate Trimmed(addr: Word32, from: nat, plen: nat)
      requires plen <= 32
      reads this, nodes.Values
    {
      forall d {:trigger Path(addr, d)} :: from <= d <= plen && Path(addr, d) in nodes ==> !nodes[Path(addr, d)].Empty()
    }

    /** Below a missing node there is nothing to trim. */
    lemma TrimmedBelow(addr: Word32, from: nat, plen: nat)
      requires Shape(None) && from <= plen <= 32 && Path(addr, from) !in nodes
      ensures Trimmed(addr, from, plen)
    {
      hide Path, WellShaped;
      forall d {:trigger Path(addr, d)} | from <= d <= plen
        ensures Path(addr, d) !in nodes
      {
        if Path(addr, d) in nodes {
          PathPresent(addr, d, from);
        }
      }
    }

    /** `del_rec`: remove the route below `n` and prune the branches this leaves empty. */
    method DelRec(n: Node, addr: Word32, plen: nat, depth: nat) returns (gone: bool, found: bool)
      requires Valid() && depth <= plen <= 32 && Path(addr, depth) in nodes && n == nodes[Path(addr, depth)]
      modifies this`nodes, nodes.Values, pool
      ensures Shape(if gone then Some(Path(addr, depth)) else None) && Pooled()
      ensures gone <==> Path(addr, depth) !in nodes
      ensures gone ==> depth > 0
      ensures found == (Path(addr, plen) in old(Routes())) && Routes() == old(Routes()) - {Path(addr, plen)}
      ensures forall k :: k in nodes ==> k in old(nodes) && nodes[k] == old(nodes)[k]
      ensures forall k :: k in old(nodes) && k.len < depth ==> k in nodes
      ensures Trimmed(addr, Max(1, depth), plen)
      decreases 32 - depth
    {
      hide Path, BitAt, Extend, Shape, Pooled, Routes;
      PathLength(addr, depth);
      found := false;
      if depth == plen {
        found := Clear(n, Path(addr, depth));
      } else {
        found := DelBelow(n, addr, plen, depth);
      }
      gone := n.Empty() && depth > 0;
      if gone {
        Prune(Path(addr, depth));
      }
    }

    /** The recursive half of `del_rec`, which also clears the link to a child that was freed. */
    method DelBelow(n: Node, addr: Word32, plen: nat, depth: nat) returns (found: bool)
      requires Valid() && depth < plen <= 32 && Path(addr, depth) in nodes && n == nodes[Path(addr, depth)]
      modifies this`nodes, nodes.Values, pool
      ensures Valid()
      ensures found == (Path(addr, plen) in old(Routes())) && Routes() == old(Routes()) - {Path(addr, plen)}
      ensures forall k :: k in nodes ==> k in old(nodes) && nodes[k] == old(nodes)[k]
      ensures forall k :: k in old(nodes) && k.len <= depth ==> k in nodes
      ensures Trimmed(addr, depth + 1, plen)
      decreases 32 - depth, 0
    {
      hide Path, BitAt, Extend, Shape, Pooled, Routes;
      PathLength(addr, depth);
      PathExtends(addr, depth);
      Descend(addr, depth);
      var b := BitAt(addr, depth);
      var c := n.Child(b);
      if c == null {
        NoRouteBelow(addr, depth + 1, plen);
        TrimmedBelow(addr, depth + 1, plen);
        found := false;
      } else {
        var gone;
        gone, found := DelRec(c, addr, plen, depth + 1);
        if gone {
          Unlink(n, b, Path(addr, depth));
          TrimmedBelow(addr, depth + 1, plen);
        }
      }
    }

    /** `fib_del`: it fails exactly when the prefix is not installed, and otherwise removes that one route. */
    method Del(prefix: Word32, plen: nat) returns (ok: bool)
      requires Valid()
      modifies this`nodes, nodes.Values, pool
      ensures Valid()
      ensures ok <==> plen <= 32 && Path(prefix, plen) in old(Routes())
      ensures Routes() == if ok then old(Routes()) - {Path(prefix, plen)} else old(Routes())
      ensures nodes.Values <= old(nodes.Values)
      ensures plen <= 32 ==> Trimmed(Masked(prefix, plen), 1, plen)
    {
      hide Path, Masked, Shape, Pooled, Routes;
      if plen > 32 {
        return false;
      }
      var masked := Masked(prefix, plen);
      MaskedPath(prefix, plen);
      Origin(masked);
      Start(masked);
      if root == null {
        NoRouteBelow(masked, 0, plen);
        TrimmedBelow(masked, 0, plen);
        return false;
      }
      var gone;
      gone, ok := DelRec(root, masked, plen, 0);
      assert !ok ==> Routes() == old(Routes());
    }

    // -------------------------------------------------------------- iteration

    /** `walk_rec`: the entries below `n` in the order the callback sees them. */
    method WalkRec(n: Node?, ghost k: Key) returns (out: seq<Entry>, ghost ks: seq<Key>)
      requires Shape(None) && k.len <= 33 && n == (if k in nodes then nodes[k] else null)
      ensures ks == PreOrder(Cells(), k) && |out| == |ks|
      ensures forall i :: 0 <= i < |out| ==> ks[i] in nodes && out[i] == nodes[ks[i]].entry
      decreases 33 - k.len
    {
      hide Injective, Extend, ParentClosed;
      out, ks := [], [];
      if n == null {
        return;
      }
      Bounded(Cells(), k);
      ExtendLength(k);
      if n.entry != null {
        out, ks := [n.entry], [k];
      }
      assert Cells()[k].Child(0) == n.zero && Cells()[k].Child(1) == n.one;
      var low, lowKeys := WalkRec(n.zero, Extend(k, 0));
      var high, highKeys := WalkRec(n.one, Extend(k, 1));
      out, ks := out + low + high, ks + lowKeys + highKeys;
    }

    /** `fib_walk`: every route exactly once, in ascending order of prefix and length. */
    method Walk() returns (out: seq<Entry>)
      requires Valid()
      ensures forall i, j :: 0 <= i < j < |out| ==>
        out[i].prefix < out[j].prefix || (out[i].prefix == out[j].prefix && out[i].plen < out[j].plen)
      ensures forall i :: 0 <= i < |out| ==>
        && out[i].plen <= 32 && Path(out[i].prefix, out[i].plen) in Routes()
        && Answer(out[i]) == Some(Routes()[Path(out[i].prefix, out[i].plen)])
      ensures forall k :: k in Routes() ==>
        exists i :: 0 <= i < |out| && out[i].plen <= 32 && Path(out[i].prefix, out[i].plen) == k
    {
      hide Injective, Linked, Value, PreOrder, Path;
      ghost var ks;
      out, ks := WalkRec(root, Key(0, 0));
      WalkVisitsAll(Cells(), Slots());
      forall i | 0 <= i < |out|
        ensures ks[i].len <= 32 && out[i].prefix == Value(ks[i]) && out[i].plen == ks[i].len
        ensures Path(out[i].prefix, out[i].plen) == ks[i] && Answer(out[i]) == Some(Routes()[ks[i]])
      {
        assert ks[i] in ks;
        assert Cells()[ks[i]].entry == out[i];
      }
      forall k | k in Routes()
        ensures exists i :: 0 <= i < |out| && out[i].plen <= 32 && Path(out[i].prefix, out[i].plen) == k
      {
        var i :| 0 <= i < |ks| && ks[i] == k;
        assert Path(out[i].prefix, out[i].plen) == k;
      }
    }

    // -------------------------------------------------------------- routing through a gateway

    /** `fib_add_via`: the gateway must lie under a connected route, whose device the new route takes. */
    method AddVia(prefix: Word32, plen: nat, nextHop: Word32) returns (ok: bool)
      requires Valid()
      modifies this, nodes.Values, pool
      ensures Valid()
      ensures ok <==>
        && plen <= 32 && (Path(prefix, plen) in old(Routes()) || |old(Routes())| < MAX_ROUTES)
        && exists via: Route :: IsMatch(old(Routes()), nextHop, Some(via)) && via.connected
      ensures ok ==> exists via: Route ::
        && IsMatch(old(Routes()), nextHop, Some(via)) && via.connected
        && Routes() == old(Routes())[Path(prefix, plen) := Route(nextHop, via.dev, false)]
      ensures !ok ==> Routes() == old(Routes())
    {
      hide Path, Shape, Pooled, Routes, IsMatch;
      var via := Lookup(nextHop);
      forall other: Route | IsMatch(Routes(), nextHop, Some(other))
        ensures Some(other) == Answer(via)
      {
        MatchUnique(Routes(), nextHop, Some(other), Answer(via));
      }
      if via == null || !via.connected {
        return false;
      }
      ghost var route := Route(via.nextHop, via.dev, via.connected);
      assert IsMatch(old(Routes()), nextHop, Some(route));
      ok := Add(prefix, plen, nextHop, Some(via.dev), false);
    }

    // -------------------------------------------------------------- runs

    /** One addition or removal. */
    method Do(op: Op)
      requires Valid()
      modifies this, nodes.Values, pool
      ensures Valid() && Routes() == Apply(old(Routes()), op)
      ensures forall x :: x in nodes.Values ==> x in old(nodes.Values) || fresh(x)
    {
      hide Path, Shape, Pooled, Routes;
      match op
      case Insert(prefix, plen, route) =>
        var _ := Add(prefix, plen, route.nextHop, Some(route.dev), route.connected);
      case Remove(prefix, plen) =>
        var _ := Del(prefix, plen);
        assert plen <= 32 && Path(prefix, plen) !in Routes() ==> Routes() - {Path(prefix, plen)} == Routes();
    }

    /** After any run of additions and removals, the trie answers lookups as the plain map would. */
    method Run(ops: seq<Op>, probe: Word32) returns (answer: Option<Route>)
      requires Valid()
      modifies this, nodes.Values, pool
      ensures Valid() && Routes() == Replay(old(Routes()), ops)
      ensures IsMatch(Replay(old(Routes()), ops), probe, answer)
    {
      hide Apply, Table.Valid, Table.Routes, IsMatch;
      for i := 0 to |ops|
        invariant Valid() && Routes() == Replay(old(Routes()), ops[..i])
        invariant forall x :: x in nodes.Values ==> x in old(nodes.Values) || fresh(x)
      {
        assert ops[..i + 1][..i] == ops[..i];
        Do(ops[i]);
      }
      assert ops[..|ops|] == ops;
      var e := Lookup(probe);
      answer := Answer(e);
    }
  }
}
