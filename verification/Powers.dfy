/** Powers of two and naturally aligned intervals. */
module Powers {

  function Pow2(k: nat): (r: nat)
    ensures r >= 1
  {
    if k == 0 then 1 else 2 * Pow2(k - 1)
  }

  /** a is a multiple of Pow2(k); see AlignedIsMultiple. */
  predicate Aligned(a: nat, k: nat) {
    k == 0 || (a % 2 == 0 && Aligned(a / 2, k - 1))
  }

  lemma {:induction false} Pow2Monotone(j: nat, k: nat)
    requires j <= k
    ensures Pow2(j) <= Pow2(k)
    decreases k
  {
    if j < k { Pow2Monotone(j, k - 1); }
  }

  lemma {:induction false} Pow2Add(j: nat, k: nat)
    ensures Pow2(j + k) == Pow2(j) * Pow2(k)
  {
    if j > 0 {
      Pow2Add(j - 1, k);
      assert 2 * (Pow2(j - 1) * Pow2(k)) == 2 * Pow2(j - 1) * Pow2(k);
    }
  }

  lemma MulStrict(q: int, q': int, m: int)
    requires q < q' && m > 0
    ensures q * m + m <= q' * m
  {
    assert (q' - q - 1) * m >= 0;
    assert (q' - q - 1) * m == q' * m - q * m - m;
  }

  lemma DivMonotone(a: nat, b: nat, m: nat)
    requires a <= b && m > 0
    ensures a / m <= b / m
  {
    if b / m < a / m { MulStrict(b / m, a / m, m); }
  }

  lemma DivModUnique(a: int, m: int, q: int, r: int)
    requires m > 0 && 0 <= r < m && a == q * m + r
    ensures a / m == q && a % m == r
  {
    var q', r' := a / m, a % m;
    assert a == q' * m + r';
    if q < q' { MulStrict(q, q', m); }
    if q' < q { MulStrict(q', q, m); }
  }

  /** A residue modulo 2m is the residue modulo m, in the lower or the upper half. */
  lemma ModDouble(a: nat, m: nat)
    requires m > 0
    ensures a % (2 * m) == if a % (2 * m) < m then a % m else a % m + m
  {
    var q, r := a / (2 * m), a % (2 * m);
    assert a == q * (2 * m) + r;
    if r < m {
      assert a == (2 * q) * m + r;
      DivModUnique(a, m, 2 * q, r);
    } else {
      assert a == (2 * q + 1) * m + (r - m);
      DivModUnique(a, m, 2 * q + 1, r - m);
    }
  }

  /** A multiple of m is a multiple of 2m, or m past one. */
  lemma MultipleParity(a: nat, m: nat, mm: nat)
    requires m > 0 && mm == 2 * m && a % m == 0
    ensures a % mm == 0 || (a % mm == m && m <= a && (a - m) % mm == 0)
  {
    ModDouble(a, m);
    var q := a / mm;
    if a % mm == m {
      assert a == q * mm + m;
      assert q * mm >= 0;
      DivModUnique(a - m, mm, q, 0);
    }
  }

  lemma HalveMod(h: nat, e: nat, m: nat)
    requires e < 2 && m > 0
    ensures (2 * h + e) % (2 * m) == 2 * (h % m) + e
  {
    var q, r := h / m, h % m;
    assert h == q * m + r;
    assert q * (2 * m) == 2 * (q * m);
    DivModUnique(2 * h + e, 2 * m, q, 2 * r + e);
  }

  lemma {:induction false} AlignedIsMultiple(a: nat, k: nat)
    ensures Aligned(a, k) <==> a % Pow2(k) == 0
  {
    if k > 0 {
      AlignedIsMultiple(a / 2, k - 1);
      HalveMod(a / 2, a % 2, Pow2(k - 1));
      assert a == 2 * (a / 2) + a % 2;
    }
  }

  lemma {:induction false} AlignedZero(k: nat)
    ensures Aligned(0, k)
  {
    if k > 0 { AlignedZero(k - 1); }
  }

  lemma {:induction false} AlignedFiner(a: nat, j: nat, k: nat)
    requires j <= k && Aligned(a, k)
    ensures Aligned(a, j)
  {
    if 0 < j { AlignedFiner(a / 2, j - 1, k - 1); }
  }

  /** Aligned power-of-two intervals are laminar: two that meet are nested. */
  lemma {:induction false} Laminar(a: nat, j: nat, b: nat, k: nat)
    requires j <= k && Aligned(a, j) && Aligned(b, k)
    requires a < b + Pow2(k) && b < a + Pow2(j)
    ensures b <= a && a + Pow2(j) <= b + Pow2(k)
    ensures j == k ==> a == b
    decreases j
  {
    if j > 0 {
      Laminar(a / 2, j - 1, b / 2, k - 1);
    }
  }

  /** The halves of an aligned interval are aligned. */
  lemma {:induction false} AlignedHalves(a: nat, k: nat)
    requires k > 0 && Aligned(a, k)
    ensures Aligned(a, k - 1) && Aligned(a + Pow2(k - 1), k - 1)
  {
    if k > 1 {
      AlignedHalves(a / 2, k - 1);
      assert (a + Pow2(k - 1)) / 2 == a / 2 + Pow2(k - 2);
    }
  }
}
