/** Sender-side fragmentation (`ip_output`) and what its packets say on the wire. */
module Fragmentation {
  import opened SeqSpace
  import opened Checksum
  import opened Ipv4
  import opened ReassemblySpec

  /** What `ip_output` is asked to send, with the identification it draws. */
  datatype Datagram = Datagram(src: Word32, dst: Word32, id: Word16, ttl: byte, proto: byte, payload: seq<byte>) {
    function Key(): Key { ReassemblySpec.Key(src, dst, id, proto) }

    /** The datagram as one packet. */
    function Whole(): seq<byte>
      requires HDR_MIN + |payload| <= 0xffff
    {
      Header(HDR_MIN + |payload|, id, 0, ttl, proto, src, dst) + payload
    }

    /** Where piece `k` ends when the payload is cut into chunks of `c` bytes. */
    function PieceEnd(c: nat, k: nat): nat { Min(k * c + c, |payload|) }

    function PieceData(c: nat, k: nat): seq<byte>
      requires k * c <= |payload|
    {
      payload[k * c..PieceEnd(c, k)]
    }

    function PieceHeader(c: nat, k: nat): (h: seq<byte>)
      requires k * c <= |payload| <= 0xffff && HDR_MIN + c <= 0xffff
      ensures |h| == HDR_MIN
    {
      var last := PieceEnd(c, k) == |payload|;
      Header(HDR_MIN + |PieceData(c, k)|, id, k * c / 8 % (FRAG_OFFMASK + 1) + if last then 0 else FRAG_MF,
             ttl, proto, src, dst)
    }

    /** The packet of piece `k`. */
    function Piece(c: nat, k: nat): seq<byte>
      requires k * c <= |payload| <= 0xffff && HDR_MIN + c <= 0xffff
    {
      PieceHeader(c, k) + PieceData(c, k)
    }
  }

  /** `n` chunks of `c` bytes, the last possibly short, make `len` bytes. */
  predicate Splits(len: nat, c: nat, n: nat) {
    n > 0 && (n - 1) * c < len <= n * c
  }

  /** The payload bytes of every fragment but the last. */
  function ChunkSize(mtu: nat): (c: nat)
    requires mtu >= HDR_MIN + 8
    ensures 8 <= c <= mtu - HDR_MIN < c + 8 && c % 8 == 0
  {
    (mtu - HDR_MIN) / 8 * 8
  }

  lemma Times(a: nat, b: nat, c: nat)
    requires a <= b
    ensures a * c <= b * c && (a + 1) * c == a * c + c
  {
  }

  lemma PieceStarts(len: nat, c: nat, n: nat, k: nat)
    requires Splits(len, c, n) && k < n
    ensures k * c < len && (k < n - 1 ==> k * c + c < len) && (k == n - 1 ==> len <= k * c + c)
  {
    Times(k, n - 1, c);
    if k < n - 1 {
      Times(k + 1, n - 1, c);
    }
  }

  /** The packets `ip_output` sends. */
  ghost predicate IsOutput(d: Datagram, mtu: nat, packets: seq<seq<byte>>)
    requires HDR_MIN + 8 <= mtu <= 0xffff && |d.payload| <= 0xffff
  {
    if HDR_MIN + |d.payload| <= mtu then packets == [d.Whole()]
    else
      var c := ChunkSize(mtu);
      && Splits(|d.payload|, c, |packets|)
      && forall k :: 0 <= k < |packets| ==> k * c <= |d.payload| && packets[k] == d.Piece(c, k)
  }

  /** One round of the loop sends one piece. */
  lemma PieceStep(d: Datagram, c: nat, k: nat, off: nat)
    requires |d.payload| <= 0xffff && HDR_MIN + c <= 0xffff && c > 0 && off == Min(k * c, |d.payload|) < |d.payload|
    ensures off == k * c
    ensures var chunk := Min(c, |d.payload| - off);
      && var frag := off / 8 % (FRAG_OFFMASK + 1) + if off + chunk == |d.payload| then 0 else FRAG_MF;
      && off + chunk == Min((k + 1) * c, |d.payload|)
      && Header(HDR_MIN + chunk, d.id, frag, d.ttl, d.proto, d.src, d.dst) + d.payload[off..off + chunk]
           == d.Piece(c, k)
  {
    hide Header;
    Times(k, k, c);
  }

  /** `ip_output` after the route lookup; the MTU leaves room for a header and 8 bytes. */
  method Output(d: Datagram, mtu: nat) returns (packets: seq<seq<byte>>)
    requires HDR_MIN + 8 <= mtu <= 0xffff && |d.payload| <= 0xffff
    ensures IsOutput(d, mtu, packets)
  {
    hide Header, Datagram.Piece;
    if HDR_MIN + |d.payload| <= mtu {
      return [d.Whole()];
    }
    var c := ChunkSize(mtu);
    var off := 0;
    packets := [];
    while off < |d.payload|
      invariant off <= |d.payload| && off == Min(|packets| * c, |d.payload|)
      invariant |packets| > 0 ==> (|packets| - 1) * c < |d.payload|
      invariant forall k :: 0 <= k < |packets| ==> k * c <= |d.payload| && packets[k] == d.Piece(c, k)
      decreases |d.payload| - off
    {
      PieceStep(d, c, |packets|, off);
      var chunk := Min(c, |d.payload| - off);
      var last := off + chunk == |d.payload|;
      var frag := off / 8 % (FRAG_OFFMASK + 1) + if last then 0 else FRAG_MF;
      var h := Header(HDR_MIN + chunk, d.id, frag, d.ttl, d.proto, d.src, d.dst);
      packets := packets + [h + d.payload[off..off + chunk]];
      off := off + chunk;
    }
  }

  // ---------------------------------------------------------------- on the wire

  /** The fragment that piece `k` of `n` is. */
  function PieceFragment(d: Datagram, c: nat, n: nat, k: nat): Fragment
    requires k * c <= |d.payload| <= 0xffff && HDR_MIN + c <= 0xffff
  {
    Fragment(d.Key(), d.PieceHeader(c, k), k * c, k < n - 1, d.PieceData(c, k))
  }

  lemma OffsetField(k: nat, c: nat, mf: bool)
    requires c % 8 == 0 && k * c <= 0xffff
    ensures var frag := k * c / 8 % (FRAG_OFFMASK + 1) + if mf then FRAG_MF else 0;
      && frag <= 0xffff && frag % (FRAG_OFFMASK + 1) * 8 == k * c && (frag / FRAG_MF % 2 == 1 <==> mf)
  {
    var m := c / 8;
    assert k * c == 8 * (k * m) by {
      assert c == 8 * m;
      Eightfold(k, m);
    }
  }

  lemma Eightfold(k: nat, m: nat)
    ensures k * (8 * m) == 8 * (k * m)
  {
  }

  /** Every fragment fits the MTU, is accepted by `ip_input`, and is read back as the piece it was cut from. */
  lemma PieceParses(d: Datagram, mtu: nat, n: nat, k: nat)
    requires HDR_MIN + 8 <= mtu <= 0xffff && |d.payload| <= 0xffff && !BadSource(d.src)
    requires Splits(|d.payload|, ChunkSize(mtu), n) && k < n
    ensures var c := ChunkSize(mtu);
      && k * c <= |d.payload|
      && var p := d.Piece(c, k);
      && |p| <= mtu && CheckHeader(p) == Accepted(p) && HdrLen(p) == HDR_MIN && Parse(p) == PieceFragment(d, c, n, k)
  {
    hide CheckHeader, Header, BadSource;
    var c := ChunkSize(mtu);
    PieceStarts(|d.payload|, c, n, k);
    var mf := k < n - 1;
    OffsetField(k, c, mf);
    var frag := k * c / 8 % (FRAG_OFFMASK + 1) + if mf then FRAG_MF else 0;
    BuiltIsAccepted(d.PieceData(c, k), d.id, frag, d.ttl, d.proto, d.src, d.dst);
    assert d.Piece(c, k)[..HDR_MIN] == d.PieceHeader(c, k);
  }

  /** Rebuilding a datagram from the header of any of its pieces gives the packet that was never cut. */
  lemma RebuiltIsWhole(d: Datagram, c: nat, k: nat)
    requires k * c <= |d.payload| <= MAX_PAYLOAD && HDR_MIN + c <= 0xffff
    ensures Rebuilt(d.PieceHeader(c, k), d.payload) == d.Whole()
  {
    hide WordSum, Fold;
    var total := HDR_MIN + |d.payload|;
    var h := d.PieceHeader(c, k);
    assert Put16(Put16(Put16(h, 2, total), 6, 0), 10, 0) == RawHeader(total, d.id, 0, d.ttl, d.proto, d.src, d.dst);
  }
}
