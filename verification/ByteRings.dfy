/** The byte rings behind a TCP connection: the send ring and the receive ring of `struct tcp_cb`. */
module ByteRings {
  import opened SeqSpace

  /** TCP_SNDBUF and TCP_RCVBUF. */
  const RING: nat := 65535

  /** Reduction of an index at most one turn past the end. */
  function Slot(x: nat): (r: nat)
    requires x < 2 * RING
    ensures r < RING && (r == x || r == x - RING)
  {
    x % RING
  }

  class ByteRing {
    const buf: array<byte>
    var head: nat
    var len: nat
    /** The stored bytes, oldest first. */
    ghost var contents: seq<byte>

    ghost predicate Valid()
      reads this, buf
      ensures Valid() ==> |contents| == len <= RING
    {
      && buf.Length == RING && head < RING && len <= RING
      && |contents| == len
      && forall i :: 0 <= i < len ==> contents[i] == buf[At(i)]
    }

    ghost function At(i: nat): nat
      requires head < RING && i < RING
      reads this
    {
      if head + i < RING then head + i else head + i - RING
    }

    constructor ()
      ensures Valid() && fresh(buf) && contents == []
    {
      buf := new byte[RING];
      head, len, contents := 0, 0, [];
    }

    /** The two-part copy into the free region: the ring part of `pf_send` and `rcv_ring_put`. */
    method Put(data: seq<byte>) returns (n: nat)
      requires Valid()
      modifies this, buf
      ensures Valid()
      ensures n == Min(|data|, RING - old(len))
      ensures contents == old(contents) + data[..n]
    {
      n := Min(|data|, RING - len);
      var w := Slot(head + len);
      var first := Min(n, RING - w);
      forall i | w <= i < w + first { buf[i] := data[i - w]; }
      forall i | 0 <= i < n - first { buf[i] := data[first + i]; }
      len := len + n;
      contents := contents + data[..n];
    }

    /** `ring_copy_out`: read `n` bytes that start `off` bytes past the head. */
    method CopyOut(off: nat, n: nat) returns (s: seq<byte>)
      requires Valid() && off + n <= len
      ensures s == contents[off..off + n]
    {
      var start := Slot(head + off);
      var first := Min(n, RING - start);
      s := buf[start..start + first] + buf[..n - first];
      assert forall i :: 0 <= i < n ==> s[i] == contents[off + i];
    }

    /** Release the oldest `n` bytes. */
    method Drop(n: nat)
      requires Valid() && n <= len
      modifies this
      ensures Valid() && contents == old(contents)[n..]
    {
      head := Slot(head + n);
      len := len - n;
      contents := contents[n..];
    }
  }
}
