/** Powers of two, shifts and masks of unsigned numbers. */
module Powers {

  function Pow2(n: nat): (r: nat)
    ensures 0 < r
  {
    if n == 0 then 1 else 2 * Pow2(n - 1)
  }

  /** `v << n` */
  function Shl(v: nat, n: nat): (r: nat)
    decreases n
  {
    if n == 0 then v else 2 * Shl(v, n - 1)
  }

  /** `v >> n` */
  function Shr(v: nat, n: nat): (r: nat)
    decreases n
  {
    if n == 0 then v else Shr(v / 2, n - 1)
  }

  /** `v & ((1 << n) - 1)` */
  function Low(v: nat, n: nat): (r: nat)
    decreases n
  {
    if n == 0 then 0 else 2 * Low(v / 2, n - 1) + v % 2
  }

  /** `v` has no bits above the lowest `n`. */
  predicate Fits(v: nat, n: nat) { Low(v, n) == v }

  /** Quotient and remainder by a power of two. */
  lemma {:induction false} ShrLow(v: nat, n: nat)
    ensures v == Shr(v, n) * Pow2(n) + Low(v, n) && Low(v, n) < Pow2(n)
    decreases n
  {
    if n > 0 {
      ShrLow(v / 2, n - 1);
      DoubleProduct(Shr(v / 2, n - 1), Pow2(n - 1));
    }
  }

  lemma DoubleProduct(a: nat, b: nat)
    ensures a * (2 * b) == 2 * (a * b)
  {
  }

  lemma {:induction false} FitsBelow(v: nat, n: nat)
    ensures Fits(v, n) <==> v < Pow2(n)
    decreases n
  {
    if n > 0 {
      FitsBelow(v / 2, n - 1);
    }
  }

  lemma {:induction false} LowFits(v: nat, n: nat)
    ensures Fits(Low(v, n), n)
    decreases n
  {
    if n > 0 {
      LowFits(v / 2, n - 1);
    }
  }

  lemma FitsHalf(v: nat, n: nat)
    requires 0 < n && Fits(v, n)
    ensures Fits(v / 2, n - 1)
  {
  }

  lemma {:induction false} ShlAdd(v: nat, a: nat, b: nat)
    ensures Shl(Shl(v, a), b) == Shl(v, a + b)
    decreases b
  {
    if b > 0 {
      ShlAdd(v, a, b - 1);
    }
  }

  /** An upper and a lower part fit side by side. */
  lemma {:induction false} JoinFits(hi: nat, v: nat, a: nat, n: nat)
    requires Fits(hi, a) && Fits(v, n)
    ensures Fits(Shl(hi, n) + v, a + n)
    decreases n
  {
    if n > 0 {
      FitsHalf(v, n);
      JoinFits(hi, v / 2, a, n - 1);
      assert (Shl(hi, n) + v) / 2 == Shl(hi, n - 1) + v / 2 && (Shl(hi, n) + v) % 2 == v % 2;
    }
  }

  lemma ShlFits(v: nat, w: nat, n: nat)
    requires Fits(v, w)
    ensures Fits(Shl(v, n), w + n)
  {
    ZeroFits(n);
    JoinFits(v, 0, w, n);
  }

  lemma {:induction false} ZeroFits(n: nat)
    ensures Fits(0, n)
  {
    if n > 0 {
      ZeroFits(n - 1);
    }
  }

  lemma {:induction false} ShrFits(v: nat, a: nat, n: nat)
    requires Fits(v, a + n)
    ensures Fits(Shr(v, n), a)
    decreases n
  {
    if n > 0 {
      FitsHalf(v, a + n);
      ShrFits(v / 2, a, n - 1);
    }
  }

  lemma {:induction false} ShrAdd(v: nat, a: nat, b: nat)
    ensures Shr(Shr(v, a), b) == Shr(v, a + b)
    decreases a
  {
    if a > 0 {
      ShrAdd(v / 2, a - 1, b);
    }
  }

  /** A shift by eight. */
  lemma ByteShifts(v: nat)
    ensures Shl(v, 8) == 256 * v && Shr(v, 8) == v / 256 && Low(v, 8) == v % 256 && Pow2(8) == 256
  {
    assert Shl(v, 4) == 16 * v by { assert Shl(v, 2) == 4 * v; }
    assert Shl(v, 6) == 64 * v;
    assert Pow2(8) == 256 by { assert Pow2(4) == 16; assert Pow2(6) == 64; }
    ShrLow(v, 8);
    DivIs256(v, Shr(v, 8), Low(v, 8));
  }

  lemma DivIs256(v: nat, q: nat, r: nat)
    requires v == q * 256 + r && r < 256
    ensures v / 256 == q && v % 256 == r
  {
  }

  lemma OctetFits(x: nat)
    ensures Fits(x, 8) <==> x < 256
  {
    FitsBelow(x, 8);
    ByteShifts(x);
  }

  lemma OctetPowers()
    ensures Pow2(0) == 1 && Pow2(1) == 2 && Pow2(2) == 4 && Pow2(3) == 8
    ensures Pow2(4) == 16 && Pow2(5) == 32 && Pow2(6) == 64 && Pow2(7) == 128 && Pow2(8) == 256
  {
    assert Pow2(4) == 2 * Pow2(3);
    assert Pow2(6) == 2 * Pow2(5);
    assert Pow2(8) == 2 * Pow2(7);
  }

  /** Shifts and masks are products, quotients and remainders by powers of two. */
  lemma ShiftsAre(v: nat, n: nat)
    ensures Shr(v, n) == v / Pow2(n) && Low(v, n) == v % Pow2(n) && Shl(v, n) == v * Pow2(n)
  {
    hide Low, Shr, Pow2;
    ShrLow(v, n);
    QuotientIs(v, Pow2(n), Shr(v, n), Low(v, n));
    ShlIs(v, n);
  }

  lemma {:induction false} ShlIs(v: nat, n: nat)
    ensures Shl(v, n) == v * Pow2(n)
  {
    if n > 0 {
      ShlIs(v, n - 1);
      DoubleProduct(v, Pow2(n - 1));
    }
  }

  lemma QuotientIs(v: nat, d: nat, q: nat, r: nat)
    requires 0 < d && v == q * d + r && r < d
    ensures v / d == q && v % d == r
  {
    var k := v / d - q;
    assert k * d + v % d == r by {
      assert (v / d) * d == k * d + q * d;
    }
    assert k == 0;
  }
}
