/** Division-free tick conversion: a rounded fixed-point multiplier and a shift. */
module TickFrac {
  import opened Powers

  const U64: nat := 0x10000000000000000

  datatype FreqFrac = FreqFrac(mul: nat, shift: nat)

  /** Division of naturals, with the fact that characterises it. */
  function Quot(a: nat, m: nat): (q: nat)
    requires m > 0
    ensures q * m <= a < q * m + m
  {
    a / m
  }

  lemma Scale(x: int, y: int, k: int)
    requires x <= y && k >= 0
    ensures x * k <= y * k
  {
    assert (y - x) * k >= 0;
  }

  lemma CancelFactor(d: int, x: int, y: int)
    requires d > 0 && d * x < d * y
    ensures x < y
  {
    if y <= x { Scale(y, x, d); }
  }

  lemma Pow2At64()
    ensures Pow2(64) == U64
  {
    assert Pow2(8) == 256;
    Pow2Add(8, 8);
    assert Pow2(16) == 0x10000;
    Pow2Add(16, 16);
    assert Pow2(32) == 0x100000000;
    Pow2Add(32, 32);
  }

  lemma HalfStep(p: nat, y: nat, x: nat)
    requires p * y <= x < p * (y + 1)
    ensures 2 * p * (y / 2) <= x < 2 * p * (y / 2 + 1)
  {
    var h := y / 2;
    var q := p * h;
    assert 2 * p * h == 2 * q && 2 * p * (h + 1) == 2 * q + 2 * p;
    if y % 2 == 0 {
      MulTwice(p, h, 0);
    } else {
      MulTwice(p, h, 1);
    }
  }

  lemma MulTwice(p: nat, h: nat, e: nat)
    ensures p * (2 * h + e) == 2 * (p * h) + p * e
    ensures p * (2 * h + e + 1) == 2 * (p * h) + p * e + p
  {
  }

  /** `log2_floor`. */
  method Log2Floor(x: nat) returns (r: nat)
    requires 0 < x < U64
    ensures Pow2(r) <= x < Pow2(r + 1) && r < 64
  {
    r := 0;
    var y := x;
    while y > 1
      invariant y >= 1 && Pow2(r) * y <= x < Pow2(r) * (y + 1)
      decreases y
    {
      HalfStep(Pow2(r), y, x);
      y := y / 2;
      r := r + 1;
    }
    assert Pow2(r + 1) == 2 * Pow2(r);
    if r >= 64 {
      Pow2Monotone(64, r);
      Pow2At64();
    }
  }

  /** num * 2^shift / den rounded to the nearest integer. */
  ghost function Rounded(num: nat, den: nat, shift: nat): nat
    requires den > 0
  {
    Quot(num * Pow2(shift) + den / 2, den)
  }

  /** A number between 2^l and 2^(l+1), shifted by 63 - l, uses exactly 64 bits and
      leaves room for anything below the shifted unit. */
  lemma ScaleFits(num: nat, l: nat)
    requires l < 64 && Pow2(l) <= num < Pow2(l + 1)
    ensures Pow2(63) <= num * Pow2(63 - l) <= U64 - Pow2(63 - l)
  {
    var p := Pow2(63 - l);
    Pow2Add(l, 63 - l);
    Pow2Add(l + 1, 63 - l);
    Pow2At64();
    Scale(Pow2(l), num, p);
    Scale(num, Pow2(l + 1) - 1, p);
    SubOne(Pow2(l + 1), p);
  }

  lemma SubOne(x: int, p: int)
    ensures (x - 1) * p == x * p - p
  {
  }

  lemma QuotSmaller(a: nat, m: nat)
    requires m > 0
    ensures Quot(a, m) <= a
  {
    Scale(1, m, Quot(a, m));
  }

  /** A u64 sum. */
  function Wrap(x: nat): (r: nat)
    ensures r < U64 && (x < U64 ==> r == x)
  {
    x % U64
  }

  /** `freq_frac_init`. The 64-bit sum wraps in general; it does not, and the multiplier
      is the rounded quotient, when half the denominator is below the shifted unit. */
  method Init(num: nat, den: nat) returns (ff: FreqFrac)
    requires 0 < num < U64 && 0 < den < U64
    ensures ff.shift < 64 && Pow2(63) <= num * Pow2(ff.shift) < U64 && ff.mul < U64
    ensures ff.mul == Quot(Wrap(num * Pow2(ff.shift) + den / 2), den)
    ensures den / 2 < Pow2(ff.shift) ==> ff.mul == Rounded(num, den, ff.shift)
  {
    var l := Log2Floor(num);
    ScaleFits(num, l);
    var scaled: nat := num * Pow2(63 - l);
    var sum := Wrap(scaled + den / 2);
    QuotSmaller(sum, den);
    ff := FreqFrac(Quot(sum, den), 63 - l);
  }

  /** `freq_frac_apply`: 128-bit product, shift, saturate. */
  function Apply(ff: FreqFrac, ticks: nat): nat {
    var product := Quot(ff.mul * ticks, Pow2(ff.shift));
    if product >= U64 then U64 - 1 else product
  }

  /** The product of two 64-bit numbers fits the 128-bit intermediate. */
  lemma ProductFits(ff: FreqFrac, ticks: nat)
    requires ff.mul < U64 && ticks < U64
    ensures ff.mul * ticks < U64 * U64
  {
    Scale(ticks, U64, ff.mul);
  }

  lemma ApplyMonotone(ff: FreqFrac, t: nat, u: nat)
    requires t <= u
    ensures Apply(ff, t) <= Apply(ff, u)
  {
    Scale(t, u, ff.mul);
    var q, r, p := Quot(ff.mul * t, Pow2(ff.shift)), Quot(ff.mul * u, Pow2(ff.shift)), Pow2(ff.shift);
    if r < q { MulStrict(r, q, p); }
  }

  /** Saturation happens exactly when the shifted product needs more than 64 bits. */
  lemma SaturatesExactly(ff: FreqFrac, t: nat)
    ensures Apply(ff, t) < U64
    ensures Apply(ff, t) != Quot(ff.mul * t, Pow2(ff.shift)) <==> ff.mul * t >= U64 * Pow2(ff.shift)
  {
    var m, p := ff.mul * t, Pow2(ff.shift);
    var q := Quot(m, p);
    if q >= U64 {
      Scale(U64, q, p);
    } else {
      MulStrict(q, U64, p);
    }
  }

  /** The rounded multiplier is within half a unit of the exact ratio. */
  lemma RoundingError(num: nat, den: nat, shift: nat)
    requires den > 0
    ensures 2 * (Rounded(num, den, shift) * den) <= 2 * (num * Pow2(shift)) + den
    ensures 2 * (num * Pow2(shift)) <= 2 * (Rounded(num, den, shift) * den) + den
  {
    var x := num * Pow2(shift);
    var y := Quot(x + den / 2, den) * den;
    assert y <= x + den / 2 < y + den;
  }

  /** The upper half of the error bound, with M = 2^shift and the two floors a and b. */
  lemma UpperSide(n: nat, d: nat, m: nat, M: nat, t: nat, a: nat, b: nat)
    requires d > 0 && M > 0 && 2 * (m * d) <= 2 * (n * M) + d
    requires a * M <= m * t && t * n < b * d + d
    ensures M * a * 2 < M * b * 2 + 2 * M + t
  {
    Scale(a * M, m * t, 2 * d);
    Scale(2 * (m * d), 2 * (n * M) + d, t);
    Scale(t * n + 1, b * d + d, 2 * M);
    Shuffle(a, M, d);
    Shuffle(b, M, d);
    Mix(m, d, t);
    Mix(n, M, t);
    Spread(2 * (n * M), d, t);
    Spread(t * n, 1, 2 * M);
    Spread(b * d, d, 2 * M);
    Gather(d, M * b * 2, 2 * M, t);
    assert d * (M * a * 2) < d * (M * b * 2 + 2 * M + t);
    CancelFactor(d, M * a * 2, M * b * 2 + 2 * M + t);
  }

  lemma LowerSide(n: nat, d: nat, m: nat, M: nat, t: nat, a: nat, b: nat)
    requires d > 0 && M > 0 && 2 * (n * M) <= 2 * (m * d) + d
    requires m * t < a * M + M && b * d <= t * n
    ensures M * b * 2 < M * a * 2 + 2 * M + t
  {
    Scale(b * d, t * n, 2 * M);
    Scale(2 * (n * M), 2 * (m * d) + d, t);
    Scale(m * t + 1, a * M + M, 2 * d);
    Shuffle(a, M, d);
    Shuffle(b, M, d);
    Mix(m, d, t);
    Mix(n, M, t);
    Spread(2 * (m * d), d, t);
    Spread(m * t, 1, 2 * d);
    Spread(a * M, M, 2 * d);
    Gather(d, M * a * 2, 2 * M, t);
    assert d * (M * b * 2) < d * (M * a * 2 + 2 * M + t);
    CancelFactor(d, M * b * 2, M * a * 2 + 2 * M + t);
  }

  lemma Shuffle(a: int, M: int, d: int)
    ensures a * M * (2 * d) == d * (M * a * 2) && a * d * (2 * M) == d * (M * a * 2)
    ensures M * (2 * d) == d * (2 * M)
  {
  }

  lemma Mix(m: int, d: int, t: int)
    ensures 2 * (m * d) * t == m * t * (2 * d) && m * t == t * m
  {
  }

  lemma Spread(x: int, y: int, k: int)
    ensures (x + y) * k == x * k + y * k
  {
  }

  lemma Gather(d: int, x: int, y: int, z: int)
    ensures d * (x + y + z) == d * x + d * y + d * z
  {
  }

  /** Unless it saturates, the conversion differs from exact division by less than
      1 + t / 2^(shift + 1), for every tick count. */
  lemma CloseToExact(num: nat, den: nat, ff: FreqFrac, t: nat)
    requires den > 0 && ff.mul == Rounded(num, den, ff.shift) && ff.mul * t < U64 * Pow2(ff.shift)
    ensures var a, b, M := Apply(ff, t), Quot(t * num, den), Pow2(ff.shift);
            M * a * 2 < M * b * 2 + 2 * M + t && M * b * 2 < M * a * 2 + 2 * M + t
  {
    SaturatesExactly(ff, t);
    RoundingError(num, den, ff.shift);
    var a, b, M := Quot(ff.mul * t, Pow2(ff.shift)), Quot(t * num, den), Pow2(ff.shift);
    UpperSide(num, den, ff.mul, M, t, a, b);
    LowerSide(num, den, ff.mul, M, t, a, b);
  }

  /** Hence it is off by at most one for all tick counts below 2^(shift + 1). */
  lemma OffByAtMostOne(num: nat, den: nat, ff: FreqFrac, t: nat)
    requires den > 0 && ff.mul == Rounded(num, den, ff.shift) && ff.mul * t < U64 * Pow2(ff.shift)
    requires t < Pow2(ff.shift + 1)
    ensures -1 <= Apply(ff, t) - Quot(t * num, den) <= 1
  {
    CloseToExact(num, den, ff, t);
    WithinTwo(Pow2(ff.shift), Apply(ff, t), Quot(t * num, den), t);
    WithinTwo(Pow2(ff.shift), Quot(t * num, den), Apply(ff, t), t);
  }

  lemma WithinTwo(M: nat, a: nat, b: nat, t: nat)
    requires M > 0 && t < 2 * M && M * a * 2 < M * b * 2 + 2 * M + t
    ensures a <= b + 1
  {
    Gather(M, b, 2, 0);
    CancelFactor(M, a, b + 2);
  }
}
