/**
 The integer semantics the driver relies on, on its Arduino target: a `long` is a 32-bit
 two's-complement integer, `>>` on a signed `long` is an arithmetic shift, `<<` wraps
 modulo 2^32, and `&`/`|` act on the two's-complement bit patterns.

 Values are mathematical integers; the 32-bit width is the subset type `Long` and the
 wrap-around is `ToLong`.
 */
module CLong {

  /** A C `long` on the target: 32-bit two's complement. */
  type Long = x: int | -0x8000_0000 <= x <= 0x7FFF_FFFF

  /** An Arduino `byte` (`uint8_t`). */
  type Byte = x: int | 0 <= x <= 0xFF


  /** 2^n, eight doublings at a time so that the constants of the register layout evaluate quickly. */
  function Pow2(n: nat): (r: nat)
    ensures r > 0
  {
    if n >= 8 then 0x100 * Pow2(n - 8)
    else if n == 0 then 1
    else 2 * Pow2(n - 1)
  }

  lemma {:induction false} Pow2Step(n: nat, m: nat)
    requires n == m + 1
    ensures Pow2(n) == 2 * Pow2(m)
    decreases n
  {
    if n >= 9 {
      var n8, m8 := n - 8, m - 8;
      Pow2Step(n8, m8);
      assert Pow2(m) == 0x100 * Pow2(m8);
    } else if n == 8 {
      assert Pow2(7) == 0x80;
    }
  }

  lemma MulAssoc(a: int, b: int, c: int)
    ensures a * (b * c) == (a * b) * c
  {
  }

  lemma MulNat(a: nat, b: nat)
    ensures a * b >= 0
  {
  }

  lemma MulDouble(p: int, q: int)
    ensures p * (2 * q) == 2 * (p * q)
  {
  }

  lemma {:induction false} Pow2Add(a: nat, b: nat)
    ensures Pow2(a + b) == Pow2(a) * Pow2(b)
    decreases b
  {
    if b > 0 {
      var b1 := b - 1;
      var s, s1 := a + b, a + b1;
      Pow2Add(a, b1);
      Pow2Step(s, s1);
      Pow2Step(b, b1);
      MulDouble(Pow2(a), Pow2(b1));
    }
  }

  /** The `long` that storing `x` leaves behind: `x` modulo 2^32, read as two's complement. */
  function ToLong(x: int): (r: Long)
    ensures (x - r) % 0x1_0000_0000 == 0
  {
    var u := x % 0x1_0000_0000;
    if u < 0x8000_0000 then u else u - 0x1_0000_0000
  }


  /** `x << n` on a `long`: the bits shifted past bit 31 are lost. */
  function Shl(x: Long, n: nat): Long
  {
    ToLong(x * Pow2(n))
  }

  /** `x >> n` on a signed `long`: an arithmetic shift, which is floor division by 2^n. */
  function Shr(x: int, n: nat): int
  {
    x / Pow2(n)
  }

  /** `x & m` on two's-complement bit patterns, for a non-negative mask `m`. */
  function And(x: int, m: nat): (r: nat)
    ensures r <= m
    decreases m
  {
    if m == 0 then 0
    else 2 * And(x / 2, m / 2) + (if x % 2 == 1 && m % 2 == 1 then 1 else 0)
  }

  /** `x | y` on non-negative bit patterns. */
  function Or(x: nat, y: nat): nat
    decreases x + y
  {
    if x == 0 then y
    else if y == 0 then x
    else 2 * Or(x / 2, y / 2) + (if x % 2 == 1 || y % 2 == 1 then 1 else 0)
  }

  /** Arduino's `bitRead(value, bit)`, which expands to `((value) >> (bit)) & 0x01`. */
  function BitRead(x: int, n: nat): (r: nat)
    ensures r <= 1
  {
    And(Shr(x, n), 1)
  }

  /** Bits `lo` .. `lo + width - 1` of the two's-complement representation of `x`, unsigned. */
  function Bits(x: int, lo: nat, width: nat): nat
  {
    (x / Pow2(lo)) % Pow2(width)
  }

  /** The value of the `width`-bit two's-complement pattern `u`. */
  function SignExtend(u: nat, width: nat): int
    requires width > 0
  {
    if u < Pow2(width - 1) then u else u - Pow2(width)
  }

  // ---------------------------------------------------------------------------
  // Division and remainder by positive numbers

  lemma {:induction false} MulAtLeast(k: int, n: int)
    requires k >= 1 && n > 0
    ensures k * n >= n
  {
    if k > 1 {
      MulAtLeast(k - 1, n);
      assert k * n == (k - 1) * n + n;
    }
  }

  /** A multiple of `n` strictly between `-n` and `n` is zero. */
  lemma MulBetween(d: int, n: int)
    requires n > 0 && -n < d * n < n
    ensures d == 0
  {
    if d >= 1 {
      MulAtLeast(d, n);
    } else if d <= -1 {
      MulAtLeast(-d, n);
      MulNeg(d, n);
    }
  }

  lemma MulNeg(d: int, n: int)
    ensures (-d) * n == -(d * n)
  {
  }

  lemma MulSub(a: int, b: int, n: int)
    ensures (a - b) * n == a * n - b * n
  {
  }

  lemma MulSplit(a: int, b: int, q: int, r: int)
    ensures a * (b * q + r) == (a * b) * q + a * r
  {
  }

  lemma MulLe(a: int, r: int, c: int)
    requires a > 0 && r <= c
    ensures a * r <= a * c
  {
  }

  lemma DivModUnique(x: int, n: int, q: int, r: int)
    requires 0 < n && 0 <= r < n && x == q * n + r
    ensures x / n == q && x % n == r
  {
    var q0, r0 := x / n, x % n;
    assert x == q0 * n + r0;
    MulSub(q, q0, n);
    MulBetween(q - q0, n);
  }

  /** What `ToLong` drops is a whole number of 2^32 wraps. */
  lemma ToLongMultiple(x: int) returns (k: int)
    ensures x == ToLong(x) + k * 0x1_0000_0000
  {
    k := (x - ToLong(x)) / 0x1_0000_0000;
  }

  /** `ToLong` is the only `long` that differs from `x` by a multiple of 2^32. */
  lemma ToLongUnique(x: int, k: int, r: Long)
    requires x == r + k * 0x1_0000_0000
    ensures ToLong(x) == r
  {
    if r >= 0 {
      DivModUnique(x, 0x1_0000_0000, k, r);
    } else {
      DivModUnique(x, 0x1_0000_0000, k - 1, r + 0x1_0000_0000);
    }
  }

  /** Reading the low `width` bits of `v` back as two's complement gives `v`, when it fits. */
  lemma SignExtendOfMod(v: int, width: nat, u: nat)
    requires width > 0 && -(Pow2(width - 1) as int) <= v < Pow2(width - 1)
    requires u == v % Pow2(width)
    ensures SignExtend(u, width) == v
  {
    var w1 := width - 1;
    Pow2Step(width, w1);
    if v >= 0 {
      DivModUnique(v, Pow2(width), 0, v);
    } else {
      DivModUnique(v, Pow2(width), -1, v + Pow2(width));
    }
  }

  /** Splitting a remainder by `a * b` into its low and high parts. */
  lemma ModSplit(x: int, a: int, b: int)
    requires a > 0 && b > 0
    ensures x % (a * b) == a * ((x / a) % b) + x % a
    ensures x / (a * b) == (x / a) / b
  {
    var q1, r1 := x / a, x % a;
    var q2, r2 := q1 / b, q1 % b;
    assert x == a * q1 + r1;
    assert q1 == b * q2 + r2;
    MulSplit(a, b, q2, r2);
    MulLe(a, r2, b - 1);
    MulSub(b, 1, a);
    DivModUnique(x, a * b, q2, a * r2 + r1);
  }

  /** `x >> a >> b` is `x >> (a + b)`. */
  lemma ShrShr(x: int, a: nat, b: nat)
    ensures Shr(Shr(x, a), b) == Shr(x, a + b)
  {
    Pow2Add(a, b);
    ModSplit(x, Pow2(a), Pow2(b));
  }

  // ---------------------------------------------------------------------------
  // Masks

  /** One step of `&` with an even mask `t`. */
  lemma AndEven(x: int, t: nat, h: nat)
    requires t == 2 * h
    ensures And(x, t) == 2 * And(x / 2, h)
  {
  }

  /** One step of `&` with an odd mask `t`. */
  lemma AndOdd(x: int, t: nat, h: nat)
    requires t == 2 * h + 1
    ensures And(x, t) == 2 * And(x / 2, h) + x % 2
  {
  }

  lemma LowBitsStep(x: int, p: nat, n: nat, h: nat, t: nat)
    requires p > 0 && n == 2 * p && h + 1 == p && t + 1 == n
    requires And(x / 2, h) == (x / 2) % p
    ensures And(x, t) == x % n
  {
    AndOdd(x, t, h);
    ModSplit(x, 2, p);
  }

  /** Masking with `2^k - 1` keeps the low `k` bits: the Euclidean remainder by 2^k. */
  lemma {:induction false} AndLowBits(x: int, k: nat)
    ensures And(x, Pow2(k) - 1) == x % Pow2(k)
    decreases k
  {
    if k > 0 {
      var j := k - 1;
      Pow2Step(k, j);
      AndLowBits(x / 2, j);
      LowBitsStep(x, Pow2(j), Pow2(k), Pow2(j) - 1, Pow2(k) - 1);
    }
  }

  lemma ShiftedStep(x: int, m: nat, p: nat, n: nat, mp: nat, mn: nat)
    requires p > 0 && n == 2 * p && mp == m * p && mn == m * n
    requires And(x / 2, mp) == p * And(x / 2 / p, m)
    ensures And(x, mn) == n * And(x / n, m)
  {
    MulDouble(m, p);
    AndEven(x, mn, mp);
    ModSplit(x, 2, p);
    MulAssoc(2, p, And(x / 2 / p, m));
  }

  /** A mask whose low `k` bits are zero: `x & (m << k)` is `((x >> k) & m) << k`. */
  lemma {:induction false} AndShifted(x: int, m: nat, k: nat)
    ensures And(x, m * Pow2(k)) == Pow2(k) * And(x / Pow2(k), m)
    decreases k
  {
    if k > 0 {
      var j := k - 1;
      var p, n := Pow2(j), Pow2(k);
      Pow2Step(k, j);
      MulNat(m, p);
      MulNat(m, n);
      AndShifted(x / 2, m, j);
      ShiftedStep(x, m, p, n, m * p, m * n);
    }
  }

  /** Adding a number whose low `k` bits are zero to one below 2^k sets bits, like `|`. */
  lemma {:induction false} AddIsOr(x: nat, y: nat, k: nat)
    requires x < Pow2(k) && y % Pow2(k) == 0
    ensures Or(x, y) == x + y
    decreases k
  {
    if x != 0 && y != 0 {
      assert k > 0;
      var j := k - 1;
      Pow2Step(k, j);
      ModSplit(y, 2, Pow2(j));
      AddIsOr(x / 2, y / 2, j);
    }
  }

  /** `bitRead(x, n)` is bit `n` of the two's-complement representation of `x`. */
  lemma BitReadIsBit(x: int, n: nat)
    ensures BitRead(x, n) == Bits(x, n, 1)
    ensures BitRead(x, n) == (x / Pow2(n)) % 2
  {
    AndLowBits(Shr(x, n), 1);
  }

  // ---------------------------------------------------------------------------
  // Bit fields

  /**
   If `x` is laid out as `hi`, then `field` (`width` bits), then `low` (`lo` bits),
   `Bits` recovers `field`; `p` and `w` are 2^lo and 2^width.
   */
  lemma BitsOfLayout(x: int, lo: nat, width: nat, p: nat, w: nat, hi: int, field: nat, low: nat)
    requires p == Pow2(lo) && w == Pow2(width)
    requires field < w && low < p
    requires x == (hi * w + field) * p + low
    ensures Bits(x, lo, width) == field
  {
    DivModUnique(x, p, hi * w + field, low);
    DivModUnique(x / p, w, hi, field);
  }
}
