/** Machine integers of the profiler (Rust `u8`..`u64`, `i16`, `i64`; C `u16`, `u32`, `u64`)
    as bounded subsets of `int`, powers of two, and the bit-counting helpers
    (`trailing_zeros`, `leading_zeros`) the address-range summariser uses. */
module Machine {

  const TWO_16: int := 0x1_0000
  const TWO_32: int := 0x1_0000_0000
  const TWO_64: int := 0x1_0000_0000_0000_0000
  const U32_MAX: int := TWO_32 - 1
  const U64_MAX: int := TWO_64 - 1

  type uint8 = x: int | 0 <= x < 0x100
  type uint16 = x: int | 0 <= x < 0x1_0000
  type int16 = x: int | -0x8000 <= x < 0x8000
  type uint32 = x: int | 0 <= x < 0x1_0000_0000
  type int64 = x: int | -0x8000_0000_0000_0000 <= x < 0x8000_0000_0000_0000
  type uint64 = x: int | 0 <= x < 0x1_0000_0000_0000_0000

  /** Rust `u16::try_from(i64)` succeeds exactly on this range. */
  predicate FitsU16(x: int) {
    0 <= x < TWO_16
  }

  /** Rust `i16::try_from(i64)` succeeds exactly on this range. */
  predicate FitsI16(x: int) {
    -0x8000 <= x < 0x8000
  }

  /** Two's-complement wrap-around of an unsigned 64-bit operation. */
  function Wrap64(x: int): (r: uint64)
    ensures 0 <= x < TWO_64 ==> r == x
    ensures (r - x) % TWO_64 == 0
  {
    x % TWO_64
  }

  /** `x + 1` on `u32`, wrapping to zero. */
  function WrappingSucc32(x: uint32): (r: uint32)
    ensures x < U32_MAX ==> r == x + 1
    ensures x == U32_MAX ==> r == 0
  {
    if x == U32_MAX then 0 else x + 1
  }

  function Min(a: int, b: int): (m: int)
    ensures m <= a && m <= b
    ensures m == a || m == b
  {
    if a <= b then a else b
  }

  function Pow2(n: nat): (r: nat)
    ensures r >= 1
  {
    if n == 0 then 1 else 2 * Pow2(n - 1)
  }

  lemma Pow2Constants()
    ensures Pow2(16) == TWO_16
    ensures Pow2(32) == TWO_32
    ensures Pow2(63) == TWO_64 / 2
    ensures Pow2(64) == TWO_64
  {
    assert Pow2(4) == 16;
    PowerSplit(4, 4);
    PowerSplit(8, 8);
    PowerSplit(16, 16);
    PowerSplit(32, 31);
    PowerSplit(32, 32);
  }

  lemma {:induction false} Pow2Monotonic(a: nat, b: nat)
    requires a <= b
    ensures Pow2(a) <= Pow2(b)
    decreases b
  {
    if a < b {
      Pow2Monotonic(a, b - 1);
    }
  }

  lemma {:induction false} Pow2StrictlyMonotonic(a: nat, b: nat)
    requires a < b
    ensures Pow2(a) < Pow2(b)
    decreases b
  {
    if a < b - 1 {
      Pow2StrictlyMonotonic(a, b - 1);
    }
  }

  /** Only exponents below 63 have powers below `2^63`. */
  lemma Pow2BelowHalfSpace(t: nat, y: int)
    requires Pow2(t) <= y < TWO_64 / 2
    ensures t < 63
  {
    if t >= 63 {
      Pow2Constants();
      Pow2Monotonic(63, t);
    }
  }

  /** A `u64` has at most 64 significant bits, and `2^64` has 65. */
  lemma BitLengthOfU64(x: nat)
    requires x <= TWO_64
    ensures BitLength(x) <= 65
    ensures x < TWO_64 ==> BitLength(x) <= 64
  {
    Pow2Constants();
    assert Pow2(65) == 2 * TWO_64;
    BitLengthBound(x, 65);
    if x < TWO_64 {
      BitLengthBound(x, 64);
    }
  }

  /** `q * d + r` with `0 <= r < d` is the Euclidean division of its value by `d`. */
  lemma DivModUnique(a: int, d: int, q: int, r: int)
    requires d > 0 && 0 <= r < d
    requires a == q * d + r
    ensures a / d == q && a % d == r
  {
    var q' := a / d;
    var r' := a % d;
    assert a == q' * d + r';
    assert (q - q') * d == r' - r;
    if q > q' {
      MulAtLeast(q - q', d);
    } else if q < q' {
      MulAtLeast(q' - q, d);
    }
  }

  lemma MulAtLeast(k: int, d: int)
    requires k >= 1 && d > 0
    ensures k * d >= d
  {
    assert k * d == (k - 1) * d + d;
  }

  /** Doubling the dividend and the divisor doubles the remainder. */
  lemma ModDouble(y: int, p: int)
    requires p > 0
    ensures (2 * y) % (2 * p) == 2 * (y % p)
  {
    var q := y / p;
    assert y == q * p + y % p;
    DivModUnique(2 * y, 2 * p, q, 2 * (y % p));
  }

  /** The `k` low bits of `x` are zero. */
  predicate Aligned(x: nat, k: nat)
    decreases k
  {
    k == 0 || (x % 2 == 0 && Aligned(x / 2, k - 1))
  }

  /** `Aligned` is divisibility by `2^k`. */
  lemma {:induction false} AlignedIsDivisibility(x: nat, k: nat)
    ensures Aligned(x, k) <==> x % Pow2(k) == 0
    decreases k
  {
    if k > 0 {
      AlignedIsDivisibility(x / 2, k - 1);
      var y := x / 2;
      var p := Pow2(k - 1);
      assert y == (y / p) * p + y % p;
      if x % 2 == 0 {
        assert x == 2 * y;
        ModDouble(y, p);
      } else {
        assert x == (y / p) * (2 * p) + (2 * (y % p) + 1);
        DivModUnique(x, 2 * p, y / p, 2 * (y % p) + 1);
      }
    }
  }

  lemma {:induction false} ZeroAligned(k: nat)
    ensures Aligned(0, k)
    decreases k
  {
    if k > 0 {
      ZeroAligned(k - 1);
    }
  }

  /** A positive multiple of `2^t` is at least `2^t`. */
  lemma {:induction false} AlignedPositiveBound(y: nat, t: nat)
    requires y > 0 && Aligned(y, t)
    ensures Pow2(t) <= y
    decreases t
  {
    if t > 0 {
      AlignedPositiveBound(y / 2, t - 1);
    }
  }

  /** Rust `u64::trailing_zeros`: the number of low zero bits, 64 for zero. */
  function TrailingZeros64(x: uint64): (r: nat)
    ensures r <= 64
    ensures x == 0 <==> r == 64
    ensures Aligned(x, r)
    ensures x > 0 ==> !Aligned(x, r + 1)
  {
    if x == 0 then
      ZeroAligned(64);
      64
    else if x % 2 == 1 then
      0
    else
      var y := x / 2;
      var t := TrailingZeros64(y);
      AlignedPositiveBound(y, t);
      Pow2BelowHalfSpace(t, y);
      1 + t
  }

  /** The number of significant bits of `x`; Rust's `64 - x.leading_zeros()` for a `u64`. */
  function BitLength(x: nat): (r: nat)
    ensures x == 0 <==> r == 0
    ensures x > 0 ==> Pow2(r - 1) <= x < Pow2(r)
  {
    if x == 0 then 0 else 1 + BitLength(x / 2)
  }

  /** The bit length is the unique `n` with `2^(n-1) <= x < 2^n`. */
  lemma BitLengthUnique(x: nat, n: nat)
    requires n >= 1 && Pow2(n - 1) <= x < Pow2(n)
    ensures BitLength(x) == n
  {
    var b := BitLength(x);
    if b < n {
      Pow2Monotonic(b, n - 1);
    } else if b > n {
      Pow2Monotonic(n, b - 1);
    }
  }

  lemma BitLengthBound(x: nat, n: nat)
    requires x < Pow2(n)
    ensures BitLength(x) <= n
  {
    if x > 0 && BitLength(x) > n {
      Pow2Monotonic(n, BitLength(x) - 1);
    }
  }

  /** A multiple of `2^n` is a multiple of every smaller power of two. */
  lemma {:induction false} AlignedToSmallerPower(x: nat, k: nat, n: nat)
    requires k <= n && Aligned(x, n)
    ensures Aligned(x, k)
    decreases k
  {
    if k > 0 {
      AlignedToSmallerPower(x / 2, k - 1, n - 1);
    }
  }

  lemma {:induction false} PowerSplit(a: nat, b: nat)
    ensures Pow2(a + b) == Pow2(a) * Pow2(b)
    decreases b
  {
    if b > 0 {
      PowerSplit(a, b - 1);
    }
  }

  /** Below `2^n`, an address aligned to `2^k` (with `k <= n`) leaves room for a whole `2^k` block. */
  lemma {:induction false} AlignedFits(x: nat, k: nat, n: nat)
    requires k <= n && x < Pow2(n) && Aligned(x, k)
    ensures x + Pow2(k) <= Pow2(n)
    decreases k
  {
    if k > 0 {
      AlignedFits(x / 2, k - 1, n - 1);
    }
  }

  /** An address aligned to `2^k` leaves room for a whole `2^k` block below `2^64`. */
  lemma AlignedBlockFits(x: uint64, k: nat)
    requires k <= 64 && Aligned(x, k)
    ensures x + Pow2(k) <= TWO_64
  {
    Pow2Constants();
    AlignedFits(x, k, 64);
  }
}
