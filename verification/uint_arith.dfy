/**
  Unsigned 32-bit arithmetic (`UINT`) over the integers: the wrap-around of
  `+` and `-`, bitwise complement `~` and bitwise and `&`, each written out
  explicitly, with the facts about low-bit masks that the constant-buffer
  rounding relies on.
*/
module UintArith {

  /** 2^k. */
  function Pow2(k: nat): (p: nat)
    ensures p >= 1
  {
    if k == 0 then 1 else 2 * Pow2(k - 1)
  }

  const UintModulus: nat := 0x1_0000_0000

  /** A C `UINT`: 32 bits, unsigned. */
  type Uint = x: int | 0 <= x < UintModulus

  /** The value a `UINT` expression holds after wrap-around. */
  function Wrap(x: int): (r: Uint) {
    x % UintModulus
  }

  /** `~x` on a `UINT`: every one of the 32 bits flipped. */
  function BitNot(x: Uint): (r: Uint) {
    UintModulus - 1 - x
  }

  /** The lowest `width` bits of `x & y`, one bit at a time from the least significant. */
  function BitAnd(x: nat, y: nat, width: nat): (r: nat)
    ensures r < Pow2(width)
    decreases width
  {
    if width == 0 then 0
    else 2 * BitAnd(x / 2, y / 2, width - 1) + (if x % 2 == 1 && y % 2 == 1 then 1 else 0)
  }

  /** `x & y` on two `UINT`s. */
  function And(x: Uint, y: Uint): (r: Uint) {
    Pow2Of32();
    BitAnd(x, y, 32)
  }

  lemma {:induction false} Pow2Add(a: nat, b: nat)
    ensures Pow2(a + b) == Pow2(a) * Pow2(b)
    decreases b
  {
    if b > 0 {
      Pow2Add(a, b - 1);
      assert Pow2(a + b) == 2 * (Pow2(a) * Pow2(b - 1));
    }
  }

  lemma Pow2Of32()
    ensures Pow2(32) == UintModulus
  {
    assert Pow2(4) == 16;
    Pow2Add(4, 4);
    Pow2Add(8, 8);
    Pow2Add(16, 16);
  }

  lemma Pow2Monotone(j: nat, k: nat)
    requires j <= k
    ensures Pow2(j) <= Pow2(k)
  {
    Pow2Add(j, k - j);
    MulGe(Pow2(j), Pow2(k - j));
  }

  lemma MulGe(d: nat, m: nat)
    requires m >= 1
    ensures d * m >= d
  {
    assert d * m == d * (m - 1) + d;
  }

  /** The bits of a `width`-bit value from bit `k` upwards: the mask `~(2^k - 1)`. */
  function HighMask(k: nat, width: nat): (m: nat)
    requires k <= width
    ensures m < Pow2(width)
  {
    Pow2Monotone(k, width);
    Pow2(width) - Pow2(k)
  }

  /** Anding with zero clears every bit. */
  lemma {:induction false} AndZero(x: nat, width: nat)
    ensures BitAnd(x, 0, width) == 0
    decreases width
  {
    if width > 0 {
      AndZero(x / 2, width - 1);
    }
  }

  /** Anding zero with anything clears every bit. */
  lemma {:induction false} ZeroAnd(y: nat, width: nat)
    ensures BitAnd(0, y, width) == 0
    decreases width
  {
    if width > 0 {
      ZeroAnd(y / 2, width - 1);
    }
  }

  /** Anding with `width` one-bits keeps a value that already fits in `width` bits. */
  lemma {:induction false} AndOnes(x: nat, width: nat)
    requires x < Pow2(width)
    ensures BitAnd(x, Pow2(width) - 1, width) == x
    decreases width
  {
    if width > 0 {
      assert (Pow2(width) - 1) / 2 == Pow2(width - 1) - 1;
      AndOnes(x / 2, width - 1);
    }
  }

  /** The remainder is determined by any quotient/remainder split of `x`. */
  lemma ModUnique(x: nat, d: nat, q: nat, r: nat)
    requires d > 0 && x == d * q + r && r < d
    ensures x % d == r && x / d == q
  {
    var q', r' := x / d, x % d;
    assert d * q' + r' == d * q + r;
    if q' > q {
      MulGe(d, q' - q);
    } else if q' < q {
      MulGe(d, q - q');
    }
  }

  /** The low `k+1` bits of `x` are its lowest bit below the low `k` bits of `x / 2`. */
  lemma HalfMod(x: nat, p: nat)
    requires p > 0
    ensures x % (2 * p) == 2 * ((x / 2) % p) + x % 2
  {
    var t, u, r0 := (x / 2) / p, (x / 2) % p, x % 2;
    assert x / 2 == p * t + u;
    assert x == (2 * p) * t + (2 * u + r0);
    ModUnique(x, 2 * p, t, 2 * u + r0);
  }

  /**
    Anding with the mask that clears the low `k` of `width` bits rounds `x`
    down to a multiple of 2^k.
  */
  lemma {:induction false} ClearLowBits(x: nat, k: nat, width: nat)
    requires k <= width && x < Pow2(width)
    ensures BitAnd(x, HighMask(k, width), width) == x - x % Pow2(k)
    decreases width
  {
    if k == width {
      AndZero(x, width);
      ModUnique(x, Pow2(k), 0, x);
    } else if k == 0 {
      AndOnes(x, width);
      assert HighMask(k, width) == Pow2(width) - 1 && x % Pow2(k) == 0;
    } else {
      var mask, half, p := HighMask(k, width), HighMask(k - 1, width - 1), Pow2(k - 1);
      assert mask == 2 * half;
      assert mask / 2 == half && mask % 2 == 0;
      assert x / 2 < Pow2(width - 1);
      ClearLowBits(x / 2, k - 1, width - 1);
      assert BitAnd(x, mask, width) == 2 * BitAnd(x / 2, half, width - 1);
      HalfMod(x, p);
      assert x % Pow2(k) == 2 * ((x / 2) % p) + x % 2;
      assert x == 2 * (x / 2) + x % 2;
    }
  }

  /** Rounding down to a multiple of `d` gives `d` times the quotient, hence a multiple of `d`. */
  lemma RoundDown(x: nat, d: nat)
    requires d > 0
    ensures x - x % d == d * (x / d)
    ensures (x - x % d) % d == 0
  {
    ModUnique(x - x % d, d, x / d, 0);
  }

  /** `r`, the value `x` rounded down to a multiple of `d`, is a multiple of `d`. */
  lemma RoundedDownIsMultiple(x: nat, d: nat, r: int)
    requires d > 0 && r == x - x % d
    ensures r % d == 0
  {
    RoundDown(x, d);
  }

  /**
    `r`, the padded value `s == b + d - 1` rounded down to a multiple of `d`,
    lies in `[b, b + d)` and is `d` times the quotient.
  */
  lemma PaddedRoundedDown(b: nat, d: nat, s: nat, r: int)
    requires d > 0 && s == b + d - 1 && r == s - s % d
    ensures b <= r < b + d
    ensures r == d * ((b + d - 1) / d)
  {
    RoundDown(s, d);
  }

  /** A `UINT` sum `b + a - 1` that overflows wraps to a value below `a`. */
  lemma WrapsBelow(b: Uint, a: Uint, s: int)
    requires b + a - 1 >= UintModulus && s == Wrap(b + a - 1)
    ensures 0 <= s < a
  {
    ModUnique(b + a - 1, UintModulus, 1, b + a - 1 - UintModulus);
  }

  /** `r`, a value below `d` rounded down to a multiple of `d`, is 0. */
  lemma SmallRoundsToZero(s: nat, d: nat, r: int)
    requires 0 < d && s < d && r == s - s % d
    ensures r == 0
  {
    ModUnique(s, d, 0, s);
  }

  /** Two multiples of `d` that differ are at least `d` apart. */
  lemma MultiplesApart(m: nat, n: nat, d: nat)
    requires d > 0 && m % d == 0 && n % d == 0 && m < n
    ensures m + d <= n
  {
    var qm, qn := m / d, n / d;
    assert m == d * qm && n == d * qn;
    assert qm < qn;
    MulGe(d, qn - qm);
    assert n - m == d * (qn - qm);
  }
}
