/** Small things several modules need. */
module Common {
  datatype Option<+T> = None | Some(value: T)

  /** Quotient and remainder. */
  lemma DivMod(x: int, d: int)
    requires d > 0
    ensures x == (x / d) * d + x % d && x == d * (x / d) + x % d && 0 <= x % d < d
  {
  }
}
