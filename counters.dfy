/**
 * Counter arithmetic shared by every metric group: the wraparound
 * difference of two readings of a 64-bit counter (DELTATYPE / DELTAULL),
 * the divisor guard (NONZERO), 64-bit unsigned addition and the
 * per-period rate `delta >> shift`.
 */
module Counters {
  import opened Words

  /**
   * DELTAULL(curr, prev): `curr - prev` when the counter did not go down,
   * otherwise `UINTMAX_MAX - prev + curr`, which assumes a single wrap but
   * is one less than the true modular difference.
   */
  function Delta(curr: U64, prev: U64): (d: U64)
    ensures curr >= prev ==> prev + d == curr
    ensures curr < prev ==> prev + d + 1 == curr + U64_LIMIT
  {
    if curr < prev then UINTMAX_MAX - prev + curr else curr - prev
  }

  /** NONZERO(x): the divisor guard */
  function NonZero(x: U64): (r: U64)
    ensures r >= 1
    ensures x != 0 ==> r == x
    ensures x == 0 ==> r == 1
  {
    if x != 0 then x else 1
  }

  /** Addition of two `uint64_t` values, wrapping modulo 2^64 */
  function AddU64(a: U64, b: U64): (r: U64)
    ensures a + b < U64_LIMIT ==> r == a + b
    ensures a + b >= U64_LIMIT ==> r == a + b - U64_LIMIT
  {
    (a + b) % U64_LIMIT
  }

  /** Multiplication of two `uint64_t` values, wrapping modulo 2^64 */
  function MulU64(a: U64, b: U64): (r: U64)
    ensures a * b < U64_LIMIT ==> r == a * b
  {
    var p := a * b;
    if p < U64_LIMIT then
      ModUnique(p, U64_LIMIT, 0, p);
      p % U64_LIMIT
    else
      p % U64_LIMIT
  }

  /** Subtraction of two `uint64_t` values, wrapping modulo 2^64 */
  function SubU64(a: U64, b: U64): (r: U64)
    ensures b <= a ==> r == a - b
    ensures a < b ==> r == a - b + U64_LIMIT
  {
    (a - b) % U64_LIMIT
  }

  /** Unsigned division by a divisor the caller has guarded with NonZero */
  function DivU64(a: U64, b: U64): (r: U64)
    requires b >= 1
    ensures r * b <= a < (r + 1) * b
  {
    a / b
  }

  /** `delta >> group_frequency`: a counter increase spread over 2^shift seconds */
  function Rate(delta: U64, shift: nat): (r: U64)
    ensures r * Pow2(shift) <= delta < (r + 1) * Pow2(shift)
    ensures r <= delta
  {
    Shr(delta, shift)
  }

  /** The sum of four deltas, as `a + b + c + d` on `uint64_t` */
  function Sum4(a: U64, b: U64, c: U64, d: U64): (r: U64)
    ensures a + b + c + d < U64_LIMIT ==> r == a + b + c + d
  {
    AddU64(AddU64(AddU64(a, b), c), d)
  }

  /** A counter that has not moved has a zero delta */
  lemma DeltaOfEqual(x: U64)
    ensures Delta(x, x) == 0
  {
  }

  /**
   * The delta is zero exactly when the counter did not move, or when it
   * wrapped from UINTMAX_MAX to 0: the wrap branch loses one unit.
   */
  lemma DeltaZeroIff(curr: U64, prev: U64)
    ensures Delta(curr, prev) == 0 <==> (curr == prev || (curr == 0 && prev == UINTMAX_MAX))
  {
  }

  /**
   * Against the true difference modulo 2^64 the delta is exact when the
   * counter did not go down and one short after a wrap.
   */
  lemma DeltaVersusModular(curr: U64, prev: U64)
    ensures curr >= prev ==> Delta(curr, prev) == (curr - prev) % U64_LIMIT
    ensures curr < prev ==> Delta(curr, prev) + 1 == (curr - prev) % U64_LIMIT
  {
    if curr < prev {
      ModUnique(curr - prev + U64_LIMIT, U64_LIMIT, 0, curr - prev + U64_LIMIT);
      assert (curr - prev) % U64_LIMIT == curr - prev + U64_LIMIT;
    } else {
      ModUnique(curr - prev, U64_LIMIT, 0, curr - prev);
    }
  }

  /** A reading taken against an all-zero slot yields the reading itself */
  lemma DeltaFromZero(curr: U64)
    ensures Delta(curr, 0) == curr
  {
  }

  /** A zero delta gives a zero rate, whatever the period */
  lemma RateOfZero(shift: nat)
    ensures Rate(0, shift) == 0
  {
  }

  /** Over a one-second period the rate is the delta itself */
  lemma RateOfShiftZero(delta: U64)
    ensures Rate(delta, 0) == delta
  {
  }
}
