/** 32-bit TCP sequence numbers (src/tcp/tcp.h) and the unbounded stream positions they stand for. */
module SeqSpace {
  const MODULUS: int := 0x1_0000_0000
  const HALF: int := 0x8000_0000

  /** A C `uint32_t`. */
  type Word32 = x: int | 0 <= x < 0x1_0000_0000

  newtype byte = x: int | 0 <= x < 256

  function Min(a: int, b: int): int { if a < b then a else b }
  function Max(a: int, b: int): int { if a > b then a else b }

  /** Truncation of an unbounded value to 32 bits. */
  function Wrap(x: int): Word32 { x % MODULUS }

  /** `(int32_t)(a - b)`: the 32-bit difference read as a two's-complement number. */
  function SignedDiff(a: Word32, b: Word32): int {
    var d := (a - b) % MODULUS;
    if d < HALF then d else d - MODULUS
  }

  predicate SeqLt(a: Word32, b: Word32) { SignedDiff(a, b) < 0 }
  predicate SeqLe(a: Word32, b: Word32) { SignedDiff(a, b) <= 0 }
  predicate SeqGt(a: Word32, b: Word32) { SignedDiff(a, b) > 0 }
  predicate SeqGe(a: Word32, b: Word32) { SignedDiff(a, b) >= 0 }

  /** The unbounded position nearest to `near` whose 32-bit image (from origin `base`) is `w`. */
  function Unwrap(base: Word32, near: int, w: Word32): int {
    near + SignedDiff(w, Wrap(base + near))
  }

  /** Two differences that agree up to a multiple of the modulus have one remainder. */
  lemma SameRemainder(a: int, b: int)
    ensures (a % MODULUS - b % MODULUS) % MODULUS == (a - b) % MODULUS
  {
    var k := a / MODULUS - b / MODULUS;
    assert a - b == (a % MODULUS - b % MODULUS) + k * MODULUS;
  }

  /** The four comparisons agree with the integer order exactly on a half-open 2^31 window. */
  lemma SignedDiffExact(base: int, x: int, y: int)
    ensures SignedDiff(Wrap(base + x), Wrap(base + y)) == x - y <==> -HALF <= x - y < HALF
  {
    SameRemainder(base + x, base + y);
  }

  /** Within 2^31 of each other, sequence numbers compare as the positions they stand for. */
  lemma Compare(base: int, x: int, y: int)
    requires -HALF <= x - y < HALF
    ensures SeqLt(Wrap(base + x), Wrap(base + y)) <==> x < y
    ensures SeqLe(Wrap(base + x), Wrap(base + y)) <==> x <= y
    ensures SeqGt(Wrap(base + x), Wrap(base + y)) <==> x > y
    ensures SeqGe(Wrap(base + x), Wrap(base + y)) <==> x >= y
    ensures Wrap(base + x) == Wrap(base + y) <==> x == y
  {
    SignedDiffExact(base, x, y);
  }

  /** A sequence number is read back as the position it was sent for iff that position is fresh. */
  lemma UnwrapExact(base: Word32, near: int, pos: int)
    ensures Unwrap(base, near, Wrap(base + pos)) == pos <==> -HALF <= pos - near < HALF
  {
    SignedDiffExact(base, pos, near);
  }

  /** A segment delayed by a full turn of the sequence space is taken for the one now expected. */
  lemma StaleIsMisread(base: Word32, near: int)
    ensures Unwrap(base, near, Wrap(base + near - MODULUS)) == near
  {
  }

  /** Unwrapping is a right inverse of wrapping, whatever the sequence number. */
  lemma UnwrapWraps(base: Word32, near: int, w: Word32)
    ensures Wrap(base + Unwrap(base, near, w)) == w
    ensures -HALF <= Unwrap(base, near, w) - near < HALF
  {
    var b := Wrap(base + near);
    var d := SignedDiff(w, b);
    assert (b + d) % MODULUS == w;
    assert (base + near + d) % MODULUS == (b + d) % MODULUS;
  }

  /** 32-bit subtraction of two positions gives their true distance when it is small. */
  lemma SubExact(base: int, x: int, y: int)
    requires 0 <= x - y < MODULUS
    ensures Wrap(Wrap(base + x) - Wrap(base + y)) == x - y
  {
    assert Wrap(Wrap(base + x) - Wrap(base + y)) == (x - y) % MODULUS;
  }

  /** 32-bit addition moves a position. */
  lemma AddExact(base: int, x: int, k: int)
    ensures Wrap(Wrap(base + x) + k) == Wrap(base + x + k)
  {
  }

  /** The two-sided window test is exact for every position the nearest reading can give. */
  lemma InWindow(base: int, x: int, n: int, w: int)
    requires -HALF <= x - n < HALF + 0x2_0000 && 0 <= w <= 0xffff
    ensures SeqGe(Wrap(base + x), Wrap(base + n)) && SeqLt(Wrap(base + x), Wrap(Wrap(base + n) + w)) <==> n <= x < n + w
  {
    hide Wrap, SignedDiff;
    AddExact(base, n, w);
    if x - n < HALF {
      SignedDiffExact(base, x, n);
      if n <= x {
        SignedDiffExact(base, x, n + w);
      }
    } else {
      SignedDiffExact(base, x - MODULUS, n);
      WrapAround(base + x);
    }
  }

  lemma WrapAround(x: int)
    ensures Wrap(x - MODULUS) == Wrap(x)
  {
    assert (x - MODULUS) % MODULUS == x % MODULUS;
  }

  lemma WrapSmall(x: int)
    requires 0 <= x < MODULUS
    ensures Wrap(x) == x
  {
  }

  lemma WrapWord(w: Word32)
    ensures Wrap(w + 0) == w
  {
  }

  /** Beyond 2^31 the modular comparison is not an order: it can even be a cycle. */
  lemma SeqLtNotAnOrder()
    ensures SeqLt(0, 0x6000_0000) && SeqLt(0x6000_0000, 0xC000_0000) && SeqLt(0xC000_0000, 0)
    ensures SeqLt(0, HALF) && SeqLt(HALF, 0)
  {
  }
}
