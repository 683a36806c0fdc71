/** Fixed-width integers of the on-chain program, written out as bounded
    subsets of int, and the 32-byte public keys that name accounts. */
module Primitives {

  const U8_LIMIT: nat := 0x100
  const U16_LIMIT: nat := 0x1_0000
  const U64_LIMIT: nat := 0x1_0000_0000_0000_0000
  const U128_LIMIT: nat := 0x1_0000_0000_0000_0000_0000_0000_0000_0000

  type u8 = x: int | 0 <= x < 0x100
  type u16 = x: int | 0 <= x < 0x1_0000
  type u64 = x: int | 0 <= x < 0x1_0000_0000_0000_0000
  type u128 = x: int | 0 <= x < 0x1_0000_0000_0000_0000_0000_0000_0000_0000
  type i64 = x: int | -0x8000_0000_0000_0000 <= x < 0x8000_0000_0000_0000

  /** A Solana public key: 32 bytes. */
  type Pubkey = k: seq<u8> | |k| == 32 witness seq(32, _ => 0)

  /** `Pubkey::default()`, the all-zero key. */
  function ZeroKey(): Pubkey {
    seq(32, _ => 0)
  }

  /** Rust's `x as u64` on a non-negative wider integer keeps the low 64 bits. */
  function AsU64(x: nat): (r: u64)
    ensures r <= x
    ensures x < U64_LIMIT ==> r == x
  {
    x % U64_LIMIT
  }

  /** `a.saturating_sub(b)` on unsigned integers. */
  function SaturatingSub(a: nat, b: nat): (r: nat)
    ensures r <= a
    ensures b <= a ==> r + b == a
    ensures a <= b ==> r == 0
  {
    if a <= b then 0 else a - b
  }

  function Min(a: nat, b: nat): (r: nat)
    ensures r <= a && r <= b && (r == a || r == b)
  {
    if a <= b then a else b
  }

  /** Multiplication is monotone in both factors over the naturals. */
  lemma MulMonotone(a: nat, b: nat, c: nat, d: nat)
    requires a <= c && b <= d
    ensures a * b <= c * d
  {
    calc {
      a * b;
    <=  { MulLeftMonotone(a, b, d); }
      a * d;
    <=  { MulLeftMonotone(d, a, c); }
      c * d;
    }
  }

  lemma MulLeftMonotone(k: nat, x: nat, y: nat)
    requires x <= y
    ensures k * x <= k * y
  {
    assert k * y == k * x + k * (y - x);
  }

  /** A product of two values below 2^64 fits in 128 bits: every u64 x u64
      `checked_mul` done in u128 succeeds. */
  lemma WideProductFits(a: u64, b: u64)
    ensures a * b + 1 < U128_LIMIT
  {
    MulMonotone(a, b, U64_LIMIT - 1, U64_LIMIT - 1);
  }

  /** Cancelling a positive factor from a strict inequality. */
  lemma MulCancelLess(a: int, b: int, d: int)
    requires 0 < d && a * d < b * d
    ensures a < b
  {
  }

  /** If q copies of d fit in x then x / d is at least q. */
  lemma DivLowerBound(x: nat, d: nat, q: nat)
    requires 0 < d && q * d <= x
    ensures q <= x / d
  {
    MulCancelLess(q, x / d + 1, d);
  }

  /** If x is below (q + 1) copies of d then x / d is at most q. */
  lemma DivUpperBound(x: nat, d: nat, q: nat)
    requires 0 < d && x < (q + 1) * d
    ensures x / d <= q
  {
    MulCancelLess(x / d, q + 1, d);
  }

  /** Floor division is monotone in the dividend. */
  lemma DivMonotone(x: nat, y: nat, d: nat)
    requires 0 < d && x <= y
    ensures x / d <= y / d
  {
    DivLowerBound(y, d, x / d);
  }

  /** Floor division is antitone in the divisor. */
  lemma DivAntitone(x: nat, d: nat, e: nat)
    requires 0 < d <= e
    ensures x / e <= x / d
  {
    var q := x / e;
    MulLeftMonotone(q, d, e);
    DivLowerBound(x, d, q);
  }

  /** Comparing quotients through cross-multiplication:
      a * e <= c * b implies a / b <= c / e. */
  lemma CrossDivMonotone(a: nat, b: nat, c: nat, e: nat)
    requires 0 < b && 0 < e && a * e <= c * b
    ensures a / b <= c / e
  {
    var q := a / b;
    MulLeftMonotone(e, q * b, a);
    assert (q * e) * b == e * (q * b);
    assert (q * e) * b < (c + 1) * b;
    MulCancelLess(q * e, c + 1, b);
    DivLowerBound(c, e, q);
  }

  /** The two sides of floor division. */
  lemma FloorDivBounds(x: nat, d: nat)
    requires 0 < d
    ensures (x / d) * d <= x < (x / d + 1) * d
  {
    assert x == (x / d) * d + x % d;
    assert (x / d + 1) * d == (x / d) * d + d;
  }
}
