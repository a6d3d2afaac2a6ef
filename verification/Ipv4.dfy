/** IPv4 headers on the wire: the checks of `ip_input` and the header built by `ip_output_one`. */
module Ipv4 {
  import opened SeqSpace
  import opened Checksum

  const HDR_MIN: nat := 20
  const FRAG_DF: nat := 0x4000
  const FRAG_MF: nat := 0x2000
  const FRAG_OFFMASK: nat := 0x1fff

  // ---------------------------------------------------------------- fields

  function Version(h: seq<byte>): nat requires |h| >= HDR_MIN { h[0] as int / 16 }
  function HdrLen(h: seq<byte>): nat requires |h| >= HDR_MIN { h[0] as int % 16 * 4 }
  function TotalLen(h: seq<byte>): Word16 requires |h| >= HDR_MIN { Get16(h, 2) }
  function Id(h: seq<byte>): Word16 requires |h| >= HDR_MIN { Get16(h, 4) }
  function Frag(h: seq<byte>): Word16 requires |h| >= HDR_MIN { Get16(h, 6) }
  function Ttl(h: seq<byte>): nat requires |h| >= HDR_MIN { h[8] as int }
  function Proto(h: seq<byte>): byte requires |h| >= HDR_MIN { h[9] }
  function Src(h: seq<byte>): Word32 requires |h| >= HDR_MIN { 0x1_0000 * Get16(h, 12) + Get16(h, 14) }
  function Dst(h: seq<byte>): Word32 requires |h| >= HDR_MIN { 0x1_0000 * Get16(h, 16) + Get16(h, 18) }

  predicate IsLoopback(ip: Word32) { ip / 0x100_0000 == 127 }
  predicate IsMulticast(ip: Word32) { ip / 0x1000_0000 == 0xe }
  predicate IsExperimental(ip: Word32) { ip / 0x1000_0000 == 0xf }
  predicate IsLimitedBroadcast(ip: Word32) { ip == 0xffff_ffff }

  /** `ip4_bad_src`: a source must be a unicast address. */
  predicate BadSource(ip: Word32) {
    IsMulticast(ip) || IsExperimental(ip) || IsLimitedBroadcast(ip) || IsLoopback(ip)
  }

  /** The dotted-decimal address. */
  function Dotted(a: byte, b: byte, c: byte, d: byte): Word32 {
    0x100_0000 * a as int + 0x1_0000 * b as int + 0x100 * c as int + d as int
  }

  /** The classes are 127.0.0.0/8, 224.0.0.0/4 and 240.0.0.0/4, the last with the limited broadcast in it. */
  lemma AddressClasses(ip: Word32)
    ensures IsLoopback(ip) <==> Dotted(127, 0, 0, 0) <= ip <= Dotted(127, 255, 255, 255)
    ensures IsMulticast(ip) <==> Dotted(224, 0, 0, 0) <= ip <= Dotted(239, 255, 255, 255)
    ensures IsExperimental(ip) <==> Dotted(240, 0, 0, 0) <= ip <= Dotted(255, 255, 255, 255)
    ensures BadSource(ip) <==> Dotted(224, 0, 0, 0) <= ip || Dotted(127, 0, 0, 0) <= ip <= Dotted(127, 255, 255, 255)
  {
  }

  // ---------------------------------------------------------------- receiving

  datatype Check = Truncated | BadVersion | BadIhl | BadLen | BadCsum | BadSrc | Accepted(packet: seq<byte>)

  /** The header validation of `ip_input`, in its order; an accepted packet is trimmed to its total length. */
  function CheckHeader(p: seq<byte>): Check {
    if |p| < HDR_MIN then Truncated
    else if Version(p) != 4 then BadVersion
    else if HdrLen(p) < HDR_MIN then BadIhl
    else if HdrLen(p) > |p| then Truncated
    else if TotalLen(p) < HdrLen(p) || TotalLen(p) > |p| then BadLen
    else if Fold(WordSum(p[..HdrLen(p)])) != 0 then BadCsum
    else if BadSource(Src(p)) then BadSrc
    else Accepted(p[..TotalLen(p)])
  }

  /** A header that `ip_input` lets through: version, length, checksum. */
  predicate GoodHeader(h: seq<byte>) {
    |h| >= HDR_MIN && Version(h) == 4 && HdrLen(h) == |h| && Fold(WordSum(h)) == 0
  }

  /**
   * What `ip_input` lets through is a prefix of what arrived, as long as its header says, with a header that
   * verifies and a unicast source; and padding behind it, of any length, makes no difference.
   */
  lemma PaddingIsTrimmed(p: seq<byte>, q: seq<byte>, padding: seq<byte>)
    requires CheckHeader(p) == Accepted(q)
    ensures q <= p && HDR_MIN <= HdrLen(q) <= |q| == TotalLen(q) && GoodHeader(q[..HdrLen(q)]) && !BadSource(Src(q))
    ensures CheckHeader(q) == Accepted(q) && CheckHeader(q + padding) == Accepted(q)
  {
    hide WordSum, Fold, BadSource;
    var n := HdrLen(p);
    assert q == p[..TotalLen(p)] && q[..n] == p[..n];
    assert (q + padding)[..n] == q[..n] && (q + padding)[..|q|] == q == q[..|q|];
  }

  lemma WordOfPrefix(p: seq<byte>, n: nat, off: nat, v: Word16)
    requires off + 2 <= n <= |p|
    ensures Put16(p, off, v)[..n] == Put16(p[..n], off, v) && Get16(p[..n], off) == Get16(p, off)
  {
  }

  /** One changed word of an accepted header makes it unacceptable, unless 0x0000 and 0xffff are swapped. */
  lemma CorruptionRejected(p: seq<byte>, off: nat, v: Word16)
    requires CheckHeader(p).Accepted? && 2 <= off && off % 2 == 0 && off + 2 <= HdrLen(p) && v != Get16(p, off)
    requires CheckHeader(Put16(p, off, v)).Accepted?
    ensures v - Get16(p, off) == ONES || Get16(p, off) - v == ONES
  {
    hide WordSum, Fold, BadSource;
    var n := HdrLen(p);
    WordOfPrefix(p, n, off, v);
    DetectsWordChange(p[..n], off, v, 0);
  }

  // ---------------------------------------------------------------- sending

  /** The header fields of `ip_output_one` before the checksum is filled in. */
  function RawHeader(total: Word16, id: Word16, frag: Word16, ttl: byte, proto: byte, src: Word32,
                     dst: Word32): (h: seq<byte>)
    ensures |h| == HDR_MIN && Get16(h, 10) == 0
  {
    [0x45, 0, (total / 256) as byte, (total % 256) as byte,
     (id / 256) as byte, (id % 256) as byte, (frag / 256) as byte, (frag % 256) as byte,
     ttl, proto, 0, 0,
     (src / 0x100_0000) as byte, (src / 0x1_0000 % 256) as byte, (src / 256 % 256) as byte, (src % 256) as byte,
     (dst / 0x100_0000) as byte, (dst / 0x1_0000 % 256) as byte, (dst / 256 % 256) as byte, (dst % 256) as byte]
  }

  function Header(total: Word16, id: Word16, frag: Word16, ttl: byte, proto: byte, src: Word32,
                  dst: Word32): (h: seq<byte>)
    ensures |h| == HDR_MIN
  {
    var raw := RawHeader(total, id, frag, ttl, proto, src, dst);
    Put16(raw, 10, Fold(WordSum(raw)))
  }

  method WriteFields(buf: array<byte>, total: Word16, id: Word16, frag: Word16, ttl: byte, proto: byte, src: Word32,
                     dst: Word32)
    requires HDR_MIN <= buf.Length
    modifies buf
    ensures buf[..HDR_MIN] == RawHeader(total, id, frag, ttl, proto, src, dst)
    ensures forall i :: HDR_MIN <= i < buf.Length ==> buf[i] == old(buf[i])
  {
    var raw := RawHeader(total, id, frag, ttl, proto, src, dst);
    forall i | 0 <= i < HDR_MIN { buf[i] := raw[i]; }
  }

  /** The header part of `ip_output_one`: write the fields in front of the payload, then the checksum. */
  method WriteHeader(buf: array<byte>, id: Word16, frag: Word16, ttl: byte, proto: byte, src: Word32, dst: Word32)
    requires HDR_MIN <= buf.Length <= 0xffff
    modifies buf
    ensures buf[..] == Header(buf.Length, id, frag, ttl, proto, src, dst) + old(buf[HDR_MIN..])
  {
    hide RawHeader, WordSum, Fold;
    WriteFields(buf, buf.Length, id, frag, ttl, proto, src, dst);
    var csum := InetCsum(buf[..HDR_MIN]);
    ghost var raw := buf[..HDR_MIN];
    buf[10] := (csum / 256) as byte;
    buf[11] := (csum % 256) as byte;
    assert buf[..HDR_MIN] == Put16(raw, 10, csum);
    assert buf[..] == buf[..HDR_MIN] + buf[HDR_MIN..];
  }

  lemma Split32(w: Word32)
    ensures 0x1_0000 * (256 * (w / 0x100_0000) + w / 0x1_0000 % 256) + (256 * (w / 256 % 256) + w % 256) == w
  {
  }

  /**
   * What one host sends, another accepts and reads back: every header `ip_output_one` builds for a
   * unicast source passes `ip_input` untrimmed and carries the same fields.
   */
  lemma BuiltIsAccepted(payload: seq<byte>, id: Word16, frag: Word16, ttl: byte, proto: byte, src: Word32, dst: Word32)
    requires HDR_MIN + |payload| <= 0xffff && !BadSource(src)
    ensures var p := Header(HDR_MIN + |payload|, id, frag, ttl, proto, src, dst) + payload;
      && CheckHeader(p) == Accepted(p)
      && HdrLen(p) == HDR_MIN && p[HdrLen(p)..] == payload
      && Id(p) == id && Frag(p) == frag && Ttl(p) == ttl as int && Proto(p) == proto && Src(p) == src && Dst(p) == dst
  {
    hide Header, WordSum, Fold, BadSource;
    var total := HDR_MIN + |payload|;
    var h := Header(total, id, frag, ttl, proto, src, dst);
    HeaderVerifies(total, id, frag, ttl, proto, src, dst);
    HeaderFields(total, id, frag, ttl, proto, src, dst);
    var p := h + payload;
    assert p[..HDR_MIN] == h && p[..total] == p && p[HDR_MIN..] == payload;
  }

  lemma HeaderVerifies(total: Word16, id: Word16, frag: Word16, ttl: byte, proto: byte, src: Word32, dst: Word32)
    ensures Fold(WordSum(Header(total, id, frag, ttl, proto, src, dst))) == 0
  {
    hide RawHeader, WordSum, Fold, Put16;
    FillVerifies(RawHeader(total, id, frag, ttl, proto, src, dst), 10, 0);
  }

  lemma HeaderFields(total: Word16, id: Word16, frag: Word16, ttl: byte, proto: byte, src: Word32, dst: Word32)
    ensures var h := Header(total, id, frag, ttl, proto, src, dst);
      && Version(h) == 4 && HdrLen(h) == HDR_MIN && TotalLen(h) == total
      && Id(h) == id && Frag(h) == frag && Ttl(h) == ttl as int && Proto(h) == proto && Src(h) == src && Dst(h) == dst
  {
    hide WordSum, Fold;
    Split32(src);
    Split32(dst);
  }
}
