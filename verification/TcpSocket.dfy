/** The loop of `pf_send` around the control block: when it ends. */
module TcpSocket {
  import opened SeqSpace
  import opened ByteRings
  import opened TcpEvents

  /** The bytes sent when the passes of the loop find the ring with these spaces; 0 makes it wait for events. */
  function SentAfter(len: nat, spaces: seq<nat>): (sent: nat)
    ensures sent <= len
  {
    if spaces == [] then 0
    else
      var sent := SentAfter(len, spaces[..|spaces| - 1]);
      sent + Pass(len - sent, spaces[|spaces| - 1])
  }

  /** The passes that find some space. */
  function Offers(spaces: seq<nat>): nat {
    if spaces == [] then 0
    else Offers(spaces[..|spaces| - 1]) + if spaces[|spaces| - 1] > 0 then 1 else 0
  }

  /** The ring never offers more than it holds. */
  predicate Offered(spaces: seq<nat>) {
    forall i :: 0 <= i < |spaces| ==> spaces[i] <= RING
  }

  /** The loop, over the spaces it finds. */
  method Send(len: nat, spaces: seq<nat>) returns (sent: nat)
    ensures sent == SentAfter(len, spaces)
  {
    sent := 0;
    for i := 0 to |spaces|
      invariant sent == SentAfter(len, spaces[..i])
    {
      assert spaces[..i + 1][..i] == spaces[..i];
      if sent < len && spaces[i] != 0 {
        sent := sent + Min((len - sent) % MODULUS, spaces[i]);
      }
    }
    assert spaces[..|spaces|] == spaces;
  }

  /** Below 2^32 bytes every pass with space takes at least one byte, so the loop ends. */
  lemma {:induction false} ShortEnds(len: nat, spaces: seq<nat>)
    requires len < MODULUS
    ensures SentAfter(len, spaces) >= Min(len, Offers(spaces))
  {
    if spaces != [] {
      ShortEnds(len, spaces[..|spaces| - 1]);
    }
  }

  /** From 2^32 bytes on, what is left never falls below the last whole multiple of 2^32. */
  lemma {:induction false} LongNeverEnds(len: nat, spaces: seq<nat>)
    requires len >= MODULUS && Offered(spaces)
    ensures len - SentAfter(len, spaces) >= MODULUS
  {
    if spaces != [] {
      LongNeverEnds(len, spaces[..|spaces| - 1]);
      KeepsMultiple(len - SentAfter(len, spaces[..|spaces| - 1]), spaces[|spaces| - 1]);
    }
  }

  lemma KeepsMultiple(rest: nat, space: nat)
    requires rest >= MODULUS
    ensures rest - Pass(rest, space) >= MODULUS
  {
  }

  /** A schedule of `n` passes that each find one byte of space. */
  function Ones(n: nat): (spaces: seq<nat>)
    ensures Offered(spaces) && |spaces| == n && Offers(spaces) == n
  {
    if n == 0 then [] else assert (Ones(n - 1) + [1])[..n - 1] == Ones(n - 1); Ones(n - 1) + [1]
  }

  /** `pf_send` ends whenever the ring keeps offering space, if and only if it was asked for less than 2^32 bytes. */
  lemma SendEndsIff(len: nat)
    ensures (forall spaces :: Offered(spaces) && Offers(spaces) >= len ==> SentAfter(len, spaces) == len)
      <==> len < MODULUS
  {
    if len < MODULUS {
      forall spaces | Offered(spaces) && Offers(spaces) >= len
        ensures SentAfter(len, spaces) == len
      {
        ShortEnds(len, spaces);
      }
    } else {
      LongNeverEnds(len, Ones(len));
    }
  }
}
