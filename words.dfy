/**
 * Machine words of the sampler: 64-bit counters, 32-bit options and bytes,
 * powers of two, right shifts and the bitwise AND that the scheduler uses
 * to decide whether a group is due.  Everything is on unbounded integers;
 * the widths of the C types are explicit subset types.
 */
module Words {

  const U64_LIMIT: nat := 0x1_0000_0000_0000_0000
  /** UINTMAX_MAX on the platforms the sampler targets */
  const UINTMAX_MAX: nat := 0xFFFF_FFFF_FFFF_FFFF
  /** UINT32_MAX, which is also UINT_MAX for a 32-bit `unsigned int` */
  const UINT32_MAX: nat := 0xFFFF_FFFF
  const INT_MAX: int := 0x7FFF_FFFF
  const INT_MIN: int := -0x8000_0000

  type U64 = x: int | 0 <= x < 0x1_0000_0000_0000_0000
  type U32 = x: int | 0 <= x < 0x1_0000_0000
  type Byte = x: int | 0 <= x < 256

  datatype Option<T> = None | Some(value: T)

  function Min(a: int, b: int): int { if a < b then a else b }

  function Pow2(n: nat): (r: nat)
    ensures r >= 1
  {
    if n == 0 then 1 else 2 * Pow2(n - 1)
  }

  /** `a & b` on non-negative integers, bit by bit from the least significant one */
  function BitAnd(a: nat, b: nat): (r: nat)
    ensures r <= a && r <= b
    decreases a
  {
    if a == 0 || b == 0 then 0
    else 2 * BitAnd(a / 2, b / 2) + (if a % 2 == 1 && b % 2 == 1 then 1 else 0)
  }

  /** `x >> s` on an unsigned value */
  function Shr(x: nat, s: nat): (r: nat)
    ensures r * Pow2(s) <= x < (r + 1) * Pow2(s)
    ensures r <= x
  {
    DivBounds(x, Pow2(s));
    x / Pow2(s)
  }

  /** The quotient of a division brackets the dividend */
  lemma DivBounds(x: nat, d: nat)
    requires d >= 1
    ensures 0 <= x / d
    ensures (x / d) * d <= x < (x / d + 1) * d
    ensures x / d <= x
  {
    var q, r := x / d, x % d;
    assert x == q * d + r;
    assert (q + 1) * d == q * d + d;
    assert q <= q * d by {
      MulAtLeast(q, d);
    }
  }

  lemma MulAtLeast(q: nat, d: nat)
    requires d >= 1
    ensures q <= q * d
  {
    assert q * d == q + q * (d - 1);
  }

  lemma MulAssoc(x: int, y: int, z: int)
    ensures (x * y) * z == x * (y * z)
  {
  }

  /** A mask of the form 2^w - 1: the only masks the scheduler ever stores */
  ghost predicate IsLowMask(m: nat)
  {
    exists w: nat :: m + 1 == Pow2(w)
  }

  lemma {:induction false} Pow2Add(a: nat, b: nat)
    ensures Pow2(a + b) == Pow2(a) * Pow2(b)
  {
    if a > 0 {
      Pow2Add(a - 1, b);
    }
  }

  lemma Pow2Values()
    ensures Pow2(31) == 0x8000_0000
    ensures Pow2(32) == UINT32_MAX + 1
    ensures Pow2(64) == U64_LIMIT
  {
    Pow2Of32();
    Pow2Add(32, 32);
    assert Pow2(32) == 2 * Pow2(31);
  }

  lemma Pow2Of32()
    ensures Pow2(32) == 0x1_0000_0000
  {
    assert Pow2(8) == 256;
    Pow2Add(8, 8);
    Pow2Add(16, 16);
  }

  lemma {:induction false} Pow2Monotone(a: nat, b: nat)
    requires a <= b
    ensures Pow2(a) <= Pow2(b)
  {
    if a < b {
      Pow2Monotone(a, b - 1);
    }
  }

  lemma MulCancel(d: int, a: int, b: int)
    requires d > 0 && d * a < d * b
    ensures a < b
  {
  }

  /** Division with remainder has a unique result */
  lemma ModUnique(t: nat, d: nat, q: nat, r: nat)
    requires d > 0 && t == d * q + r && r < d
    ensures t % d == r && t / d == q
  {
    var q', r' := t / d, t % d;
    assert t == d * q' + r';
    MulCancel(d, q, q' + 1);
    MulCancel(d, q', q + 1);
  }

  /** Splitting off the lowest bit: t % 2^(w+1) == 2 * ((t / 2) % 2^w) + t % 2 */
  lemma ModPow2Step(t: nat, w: nat)
    ensures t % Pow2(w + 1) == 2 * ((t / 2) % Pow2(w)) + t % 2
  {
    var p := Pow2(w);
    var h := t / 2;
    var a, b := h / p, h % p;
    assert h == p * a + b;
    assert t == 2 * h + t % 2;
    assert t == (2 * p) * a + (2 * b + t % 2) by {
      assert 2 * (p * a) == (2 * p) * a;
    }
    ModUnique(t, 2 * p, a, 2 * b + t % 2);
  }

  /** The scheduler's test: t & (2^w - 1) keeps exactly the remainder of t modulo 2^w */
  lemma {:induction false} AndLowMask(t: nat, w: nat)
    ensures BitAnd(t, Pow2(w) - 1) == t % Pow2(w)
  {
    if w == 0 {
    } else if t == 0 {
    } else {
      var m := Pow2(w) - 1;
      assert m / 2 == Pow2(w - 1) - 1 && m % 2 == 1;
      AndLowMask(t / 2, w - 1);
      ModPow2Step(t, w - 1);
    }
  }

  /** t & (2^w - 1) == 0 exactly when 2^w divides t */
  lemma AndLowMaskZero(t: nat, w: nat)
    ensures BitAnd(t, Pow2(w) - 1) == 0 <==> t % Pow2(w) == 0
  {
    AndLowMask(t, w);
  }

  lemma Pow2DividesLarger(t: nat, a: nat, b: nat)
    requires a <= b && t % Pow2(b) == 0
    ensures t % Pow2(a) == 0
  {
    var pa, pc := Pow2(a), Pow2(b - a);
    Pow2Add(a, b - a);
    var q := t / Pow2(b);
    assert t == Pow2(b) * q;
    MulAssoc(pa, pc, q);
    assert t == pa * (pc * q) + 0;
    ModUnique(t, pa, pc * q, 0);
  }

  /** A low mask no wider than another: whatever clears the wider mask clears the narrower one */
  lemma LowMaskOrder(t: nat, small: nat, large: nat)
    requires IsLowMask(small) && IsLowMask(large) && small <= large
    requires BitAnd(t, large) == 0
    ensures BitAnd(t, small) == 0
  {
    var ws: nat :| small + 1 == Pow2(ws);
    var wl: nat :| large + 1 == Pow2(wl);
    assert ws <= wl by {
      if ws > wl {
        Pow2Monotone(wl + 1, ws);
      }
    }
    AndLowMaskZero(t, wl);
    Pow2DividesLarger(t, ws, wl);
    AndLowMaskZero(t, ws);
  }
}
