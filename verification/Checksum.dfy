/** The Internet checksum (src/ipv4/checksum.c): RFC 1071 sums, folding, and the update of RFC 1624. */
module Checksum {
  import opened SeqSpace

  const ONES: int := 0xffff

  type Word16 = x: int | 0 <= x <= 0xffff

  // ---------------------------------------------------------------- specification

  /** The sum of the big-endian 16-bit words of `data`, an odd last byte padded with zero. */
  function WordSum(data: seq<byte>): nat {
    if |data| == 0 then 0
    else if |data| == 1 then 256 * data[0] as int
    else 256 * data[0] as int + data[1] as int + WordSum(data[2..])
  }

  /** One's-complement reduction to 16 bits: 0 only for 0, otherwise the residue in 1..65535. */
  function Reduce(sum: nat): Word16 {
    if sum == 0 then 0 else (sum - 1) % ONES + 1
  }

  /** The checksum of a sum: the complement of its reduction. */
  function Fold(sum: nat): Word16 { ONES - Reduce(sum) }

  /** The 16-bit field at `off`, and `data` with it replaced. */
  function Get16(data: seq<byte>, off: nat): Word16
    requires off + 2 <= |data|
  {
    256 * data[off] as int + data[off + 1] as int
  }

  function Put16(data: seq<byte>, off: nat, v: Word16): (r: seq<byte>)
    requires off + 2 <= |data|
    ensures |r| == |data|
  {
    data[off := (v / 256) as byte][off + 1 := (v % 256) as byte]
  }

  // ---------------------------------------------------------------- the loops

  /** `csum_partial`. */
  method Partial(data: seq<byte>, init: Word32) returns (sum: Word32)
    ensures sum == Wrap(init + WordSum(data))
  {
    sum := init;
    var i := 0;
    while |data| - i > 1
      invariant 0 <= i <= |data|
      invariant sum == Wrap(init + WordSum(data) - WordSum(data[i..]))
    {
      var word := 256 * data[i] as int + data[i + 1] as int;
      assert data[i..][2..] == data[i + 2..];
      AddExact(init, WordSum(data) - WordSum(data[i..]), word);
      sum := Wrap(sum + word);
      i := i + 2;
    }
    if |data| - i == 1 {
      AddExact(init, WordSum(data) - WordSum(data[i..]), 256 * data[i] as int);
      sum := Wrap(sum + 256 * data[i] as int);
    }
  }

  lemma FoldStep(sum: nat)
    requires sum >= 0x1_0000
    ensures Reduce(sum % 0x1_0000 + sum / 0x1_0000) == Reduce(sum)
    ensures 0 < sum % 0x1_0000 + sum / 0x1_0000 < sum
  {
    var q, r := sum / 0x1_0000, sum % 0x1_0000;
    assert sum == q * ONES + q + r;
    assert (q + r - 1 + q * ONES) % ONES == (q + r - 1) % ONES;
  }

  /** The carry loop shared by `csum_fold` and `csum_update16`. */
  method Carry(start: Word32) returns (sum: Word16)
    ensures sum == Reduce(start)
  {
    var s: Word32 := start;
    while s / 0x1_0000 != 0
      invariant Reduce(s) == Reduce(start)
      decreases s
    {
      FoldStep(s);
      s := s % 0x1_0000 + s / 0x1_0000;
    }
    sum := s;
  }

  /** `csum_fold`: it depends only on the sum modulo 65535 and on whether the sum is 0. */
  method CsumFold(sum: Word32) returns (r: Word16)
    ensures r == Fold(sum)
  {
    var s := Carry(sum);
    r := ONES - s;
  }

  /** The 32-bit field at `off`. */
  function Get32(data: seq<byte>, off: nat): Word32
    requires off + 4 <= |data|
  {
    0x1_0000 * Get16(data, off) + Get16(data, off + 2)
  }

  /** Four bytes of a 32-bit number, most significant first. */
  function Bytes32(w: Word32): (r: seq<byte>)
    ensures |r| == 4 && Get32(r, 0) == w
  {
    [(w / 0x100_0000) as byte, (w / 0x1_0000 % 256) as byte, (w / 256 % 256) as byte, (w % 256) as byte]
  }

  /** The pseudo-header of section 3.1 of RFC 9293: source, destination, zero, protocol, length. */
  function PseudoHeader(src: Word32, dst: Word32, proto: byte, len: Word16): (r: seq<byte>)
    ensures |r| == 12 && Get32(r, 0) == src && Get32(r, 4) == dst && r[8] == 0 && r[9] == proto && Get16(r, 10) == len
  {
    Bytes32(src) + Bytes32(dst) + [0, proto, (len / 256) as byte, (len % 256) as byte]
  }

  /** `csum_pseudo`. */
  function Pseudo(src: Word32, dst: Word32, proto: byte, len: Word16): nat {
    src / 0x1_0000 + src % 0x1_0000 + dst / 0x1_0000 + dst % 0x1_0000 + proto as int + len
  }

  /** `inet_csum`. */
  method InetCsum(data: seq<byte>) returns (r: Word16)
    requires |data| <= ONES
    ensures r == Fold(WordSum(data))
  {
    WordSumBound(data);
    var sum := Partial(data, 0);
    r := CsumFold(sum);
  }

  /** The transport checksum of `tcp_send_segment` and `udp_output`, over pseudo-header and segment. */
  method TransportCsum(src: Word32, dst: Word32, proto: byte, data: seq<byte>) returns (r: Word16)
    requires |data| <= ONES
    ensures r == Fold(WordSum(PseudoHeader(src, dst, proto, |data|) + data))
  {
    hide WordSum, Wrap, Fold, Pseudo, PseudoHeader;
    WordSumBound(data);
    PseudoIsHeader(src, dst, proto, |data|, data);
    WrapSmall(Pseudo(src, dst, proto, |data|) + WordSum(data));
    var sum := Partial(data, Pseudo(src, dst, proto, |data|));
    r := CsumFold(sum);
  }

  /** `csum_update16`. */
  method Update16(oldCsum: Word16, oldField: Word16, newField: Word16) returns (r: Word16)
    ensures r == Fold((ONES - oldCsum) + (ONES - oldField) + newField)
  {
    var s := Carry((ONES - oldCsum) + (ONES - oldField) + newField);
    r := ONES - s;
  }

  // ---------------------------------------------------------------- sums of words

  /** No segment or datagram is long enough to overflow the 32-bit accumulator. */
  lemma {:induction false} WordSumBound(data: seq<byte>)
    ensures 2 * WordSum(data) <= ONES * (|data| + 1)
    decreases |data|
  {
    if |data| >= 2 {
      WordSumBound(data[2..]);
    }
  }

  /** Replacing a field at an even offset changes the sum by the difference of the two values. */
  lemma {:induction false} WordSumPut(data: seq<byte>, off: nat, v: Word16)
    requires off % 2 == 0 && off + 2 <= |data|
    ensures WordSum(Put16(data, off, v)) == WordSum(data) - Get16(data, off) + v
    decreases off
  {
    var r := Put16(data, off, v);
    assert v == 256 * (v / 256) + v % 256;
    if off == 0 {
      assert r[2..] == data[2..];
    } else {
      WordSumPut(data[2..], off - 2, v);
      assert r[2..] == Put16(data[2..], off - 2, v);
    }
  }

  /** The words of two parts add up when the first has an even length. */
  lemma {:induction false} WordSumJoin(a: seq<byte>, b: seq<byte>)
    requires |a| % 2 == 0
    ensures WordSum(a + b) == WordSum(a) + WordSum(b)
    decreases |a|
  {
    if a == [] {
      assert a + b == b;
    } else {
      WordSumJoin(a[2..], b);
      assert (a + b)[2..] == a[2..] + b;
    }
  }

  /** The sum of six words. */
  lemma SixWords(h: seq<byte>)
    requires |h| == 12
    ensures WordSum(h) == Get16(h, 0) + Get16(h, 2) + Get16(h, 4) + Get16(h, 6) + Get16(h, 8) + Get16(h, 10)
  {
    var a, b, c := h[2..], h[4..], h[6..];
    var d, e := h[8..], h[10..];
    assert a[2..] == b && b[2..] == c && c[2..] == d && d[2..] == e && e[2..] == [];
    assert WordSum(h) == Get16(h, 0) + WordSum(a) && WordSum(a) == Get16(h, 2) + WordSum(b);
    assert WordSum(b) == Get16(h, 4) + WordSum(c) && WordSum(c) == Get16(h, 6) + WordSum(d);
    assert WordSum(d) == Get16(h, 8) + WordSum(e) && WordSum(e) == Get16(h, 10);
  }

  lemma ProtoWord(h: seq<byte>)
    requires |h| == 12 && h[8] == 0
    ensures Get16(h, 8) == h[9] as int
  {
  }

  lemma Halves(w: Word32, hi: Word16, lo: Word16)
    requires w == 0x1_0000 * hi + lo
    ensures w / 0x1_0000 == hi && w % 0x1_0000 == lo
  {
  }

  /** `csum_pseudo` is the sum of the words of the pseudo-header, so it starts the sum over both parts joined. */
  lemma PseudoIsHeader(src: Word32, dst: Word32, proto: byte, len: Word16, data: seq<byte>)
    ensures Pseudo(src, dst, proto, len) == WordSum(PseudoHeader(src, dst, proto, len)) <= 5 * ONES + 255
    ensures Pseudo(src, dst, proto, len) + WordSum(data) == WordSum(PseudoHeader(src, dst, proto, len) + data)
  {
    hide WordSum, PseudoHeader, Get16;
    var h := PseudoHeader(src, dst, proto, len);
    SixWords(h);
    Halves(src, Get16(h, 0), Get16(h, 2));
    Halves(dst, Get16(h, 4), Get16(h, 6));
    ProtoWord(h);
    WordSumJoin(h, data);
  }

  // ---------------------------------------------------------------- laws

  lemma ReduceFull(sum: nat)
    ensures Fold(sum) == 0 <==> sum > 0 && sum % ONES == 0
  {
    if sum > 0 {
      var q, r := sum / ONES, sum % ONES;
      if r == 0 {
        assert sum - 1 == (q - 1) * ONES + (ONES - 1);
        assert (sum - 1) % ONES == ONES - 1;
      } else {
        assert sum - 1 == q * ONES + (r - 1);
        assert (sum - 1) % ONES == r - 1;
      }
    }
  }

  lemma ReduceCongruent(sum: nat)
    ensures (sum - Reduce(sum)) % ONES == 0
  {
    if sum > 0 {
      assert sum - Reduce(sum) == (sum - 1) - (sum - 1) % ONES;
    }
  }

  /**
   * Fill, then verify. A sender that stores the checksum of `extra` (a pseudo-header sum, or 0) and
   * `data` in a zeroed field at an even offset makes the receiver's check succeed, at any length.
   */
  lemma FillVerifies(data: seq<byte>, off: nat, extra: nat)
    requires off % 2 == 0 && off + 2 <= |data| && Get16(data, off) == 0
    ensures Fold(extra + WordSum(Put16(data, off, Fold(extra + WordSum(data))))) == 0
  {
    var sum := extra + WordSum(data);
    WordSumPut(data, off, Fold(sum));
    ReduceCongruent(sum);
    ReduceFull(sum + Fold(sum));
    var k := (sum - Reduce(sum)) / ONES;
    assert sum + Fold(sum) == (k + 1) * ONES;
  }

  /** The UDP sender's substitution of 0xffff for 0 (RFC 768) verifies as well. */
  lemma UdpFillVerifies(data: seq<byte>, off: nat, extra: nat)
    requires off % 2 == 0 && off + 2 <= |data| && Get16(data, off) == 0
    ensures var c := Fold(extra + WordSum(data));
      Fold(extra + WordSum(Put16(data, off, if c == 0 then 0xffff else c))) == 0
  {
    var sum := extra + WordSum(data);
    FillVerifies(data, off, extra);
    if Fold(sum) == 0 {
      WordSumPut(data, off, 0xffff);
      ReduceFull(sum);
      ReduceFull(sum + ONES);
      var k := sum / ONES;
      assert sum + ONES == (k + 1) * ONES;
    }
  }

  /**
   * The check accepts exactly the nonzero multiples of 65535, so a change to one word goes unnoticed
   * exactly when it swaps 0x0000 and 0xffff (and some other word is nonzero).
   */
  lemma DetectsWordChange(data: seq<byte>, off: nat, v: Word16, extra: nat)
    requires off % 2 == 0 && off + 2 <= |data| && Fold(extra + WordSum(data)) == 0 && v != Get16(data, off)
    ensures Fold(extra + WordSum(Put16(data, off, v))) == 0 <==>
      (v - Get16(data, off) == ONES || Get16(data, off) - v == ONES) && extra + WordSum(data) - Get16(data, off) + v > 0
  {
    hide WordSum, Fold, Put16, Get16;
    var w := Get16(data, off);
    var sum := extra + WordSum(data);
    WordSumPut(data, off, v);
    ReduceFull(sum);
    ReduceFull(sum - w + v);
    NextMultiple(sum, sum - w + v);
  }

  /** What a receiver at `dst` checks of a segment. */
  predicate TransportVerifies(src: Word32, dst: Word32, proto: byte, data: seq<byte>)
    requires |data| <= ONES
  {
    Fold(WordSum(PseudoHeader(src, dst, proto, |data|) + data)) == 0
  }

  /** A segment filled for its addresses verifies there. */
  lemma TransportFillVerifies(src: Word32, dst: Word32, proto: byte, data: seq<byte>, off: nat)
    requires |data| <= ONES && off % 2 == 0 && off + 2 <= |data| && Get16(data, off) == 0
    ensures var csum := Fold(WordSum(PseudoHeader(src, dst, proto, |data|) + data));
      TransportVerifies(src, dst, proto, Put16(data, off, csum))
  {
    hide WordSum, Fold, Put16, Get16, PseudoHeader, Pseudo;
    PseudoIsHeader(src, dst, proto, |data|, data);
    var csum := Fold(WordSum(PseudoHeader(src, dst, proto, |data|) + data));
    PseudoIsHeader(src, dst, proto, |data|, Put16(data, off, csum));
    FillVerifies(data, off, Pseudo(src, dst, proto, |data|));
  }

  /**
   * A segment that verifies for one destination is read at another. When one 16-bit half of the address
   * differs, this goes unnoticed exactly as for any other word: 0x0000 against 0xffff.
   */
  lemma DetectsMisdelivery(src: Word32, dst: Word32, dst': Word32, proto: byte, data: seq<byte>)
    requires |data| <= ONES && dst != dst' && TransportVerifies(src, dst, proto, data)
    requires dst / 0x1_0000 == dst' / 0x1_0000 || dst % 0x1_0000 == dst' % 0x1_0000
    ensures TransportVerifies(src, dst', proto, data) <==>
      && (dst - dst' in {ONES, -ONES, 0x1_0000 * ONES, -0x1_0000 * ONES})
      && WordSum(PseudoHeader(src, dst', proto, |data|) + data) > 0
  {
    hide WordSum, Fold, PseudoHeader;
    PseudoIsHeader(src, dst, proto, |data|, data);
    PseudoIsHeader(src, dst', proto, |data|, data);
    var sum, sum' := Pseudo(src, dst, proto, |data|) + WordSum(data), Pseudo(src, dst', proto, |data|) + WordSum(data);
    ReduceFull(sum);
    ReduceFull(sum');
    NextMultiple(sum, sum');
  }

  lemma NextMultiple(x: nat, y: nat)
    requires x % ONES == 0 && x != y && -ONES <= y - x <= ONES
    ensures y % ONES == 0 <==> y - x == ONES || x - y == ONES
  {
    assert (y - x) % ONES == y % ONES;
  }

  /**
   * Equation 3 of RFC 1624, for a message that verifies, agrees with full recomputation exactly when the two
   * sums are both zero or both not. `rest` is the sum of the other words: the version word of a header makes
   * it nonzero, so the update then fails only from a checksum and a word of all ones to a zero word.
   */
  lemma UpdateEqualsRecompute(rest: nat, csum: Word16, m: Word16, m': Word16)
    requires Fold(rest + m + csum) == 0
    ensures Fold((ONES - csum) + (ONES - m) + m') == Fold(rest + m') <==>
      (rest + m' == 0 <==> csum == ONES && m == ONES && m' == 0)
  {
    ReduceFull(rest + m + csum);
    var k := (rest + m + csum) / ONES;
    assert rest + m + csum == k * ONES;
    var x, y := (ONES - csum) + (ONES - m) + m', rest + m';
    assert x - y == (2 - k) * ONES;
    ReduceFull(x);
    ReduceFull(y);
    if x > 0 && y > 0 {
      CongruentReduce(x, y, 2 - k);
    }
  }

  lemma CongruentReduce(x: nat, y: nat, k: int)
    requires x > 0 && y > 0 && x - y == k * ONES
    ensures Reduce(x) == Reduce(y)
  {
    assert x - 1 == (y - 1) + k * ONES;
    assert ((y - 1) + k * ONES) % ONES == (y - 1) % ONES;
  }
}
