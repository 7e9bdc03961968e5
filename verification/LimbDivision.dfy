/** Two limbs divided by one, with half-limb digits only: `mbedtls_int_div_int` without a double-width type. */
module LimbDivision {
  import opened Arithmetic
  import opened Limbs
  import opened MpiShift

  lemma WrapMulExact(x: Limb, y: Limb)
    requires x * y < BASE
    ensures WrapMul(x, y) == x * y
  {
    MulMono(x, 0, y);
    DivModUnique(x * y, BASE, 0, x * y);
  }

  lemma WrapCases(a: int, b: int, c: int, k: int, m: int, v: int)
    requires 0 <= a < m && 0 <= b < m && 0 <= c < m && 0 <= v < m && v == a + b - c + m * k
    ensures v == a + b - c || v == a + b - c + m || v == a + b - c - m
  {
    if k >= 2 { MulMono(m, 2, k); }
    if k <= -2 { MulMono(m, k, -2); }
  }

  /** Wrapped `x + (y - z)` and `(x + y) - z` are the unbounded value whenever that is a limb. */
  lemma WrapDifference(x: int, y: int, z: int)
    requires 0 <= x + y - z < BASE
    ensures WrapAdd(x % BASE, WrapSub(y % BASE, z % BASE)) == x + y - z
    ensures WrapSub(WrapAdd(x % BASE, y % BASE), z % BASE) == x + y - z
  {
    BaseFacts();
    Residues(x, y, z, BASE);
    WrapsTo(x % BASE, y % BASE, z % BASE, x + y - z);
  }

  lemma Residues(x: int, y: int, z: int, m: int)
    requires m > 0 && 0 <= x + y - z < m
    ensures var v := x % m + y % m - z % m; x + y - z == v || x + y - z == v + m || x + y - z == v - m
  {
    var a, b, c := x % m, y % m, z % m;
    var i, j, k := x / m, y / m, z / m;
    assert x + y - z == a + b - c + m * (i + j - k) by {
      assert x == m * i + a && y == m * j + b && z == m * k + c;
      Distribute(m, i, j);
      Distribute(m, i + j, k);
    }
    WrapCases(a, b, c, i + j - k, m, x + y - z);
  }

  lemma WrapsTo(a: Limb, b: Limb, c: Limb, v: int)
    requires 0 <= v < BASE && (v == a + b - c || v == a + b - c + BASE || v == a + b - c - BASE)
    ensures WrapAdd(a, WrapSub(b, c)) == v && WrapSub(WrapAdd(a, b), c) == v
  {
    hide Pow;
  }

  // ---------- one quotient digit of half a limb ----------

  /** The estimate is never too small: one more would overshoot. */
  ghost predicate DigitNotLow(u: int, lo: int, d: int, q: int) {
    u * HALF + lo < (q + 1) * d
  }

  lemma EstimateBound(u: int, d1: int, d0: int, q: int, h: int)
    requires 0 <= u < d1 * h + d0 && 0 <= d0 < h <= 2 * d1 && q * d1 <= u
    ensures q <= h + 1
  {
    if q >= h + 2 {
      MulMono(d1, h + 2, q);
      Distribute(d1, h, 2);
    }
  }

  lemma EstimateNotLow(u: int, lo: int, d1: int, d0: int, q: int, h: int)
    requires 0 <= lo < h && 0 <= d0 && 0 <= q && u < (q + 1) * d1
    ensures u * h + lo < (q + 1) * (d1 * h + d0)
  {
    var n, e := (q + 1) * d1, (q + 1) * d0;
    assert (q + 1) * (d1 * h + d0) == n * h + e by {
      Distribute(q + 1, d1 * h, d0);
      MulAssoc(q + 1, d1, h);
    }
    assert e >= 0 by { MulMono(q + 1, 0, d0); }
    assert u * h + h <= n * h by {
      MulMono(h, u + 1, n);
      Distribute(h, u, 1);
    }
  }

  lemma FirstEstimate(u: int, lo: int, d1: int, d0: int, d: int, q: int, r: int)
    requires 0 < d1 < HALF <= 2 * d1 && 0 <= d0 < HALF && d == d1 * HALF + d0
    requires 0 <= u < d && 0 <= lo < HALF && u == d1 * q + r && 0 <= r < d1
    ensures DigitNotLow(u, lo, d, q) && 0 <= q <= HALF + 1
  {
    assert q >= 0 by { MulStrict(d1, -1, q); }
    assert u < (q + 1) * d1 by { Distribute(d1, q, 1); }
    EstimateBound(u, d1, d0, q, HALF);
    EstimateNotLow(u, lo, d1, d0, q, HALF);
  }

  /** The test asks exactly whether the estimate overshoots. */
  lemma TestIsExact(u: int, lo: int, d1: int, d0: int, d: int, q: int, r: int)
    requires d == d1 * HALF + d0 && u == d1 * q + r
    ensures q * d0 > HALF * r + lo <==> u * HALF + lo < q * d
  {
    calc {
      q * d - u * HALF;
      q * (d1 * HALF + d0) - (d1 * q + r) * HALF;
      q * d0 - HALF * r;
    }
  }

  lemma TooLarge(u: int, lo: int, d: int, q: int)
    requires 0 <= u < d && 0 <= lo < HALF && q >= HALF
    ensures u * HALF + lo < q * d
  {
    MulMono(HALF, u + 1, d);
    Distribute(HALF, u, 1);
    MulMono(d, HALF, q);
  }

  lemma BreakIsExact(u: int, lo: int, d1: int, d0: int, d: int, q: int, r: int)
    requires d == d1 * HALF + d0 && u == d1 * q + r && 0 <= d0 < HALF && lo >= 0
    requires 0 <= q <= HALF <= r
    ensures q * d <= u * HALF + lo
  {
    TestIsExact(u, lo, d1, d0, d, q, r);
    MulGrow(q, HALF, d0, HALF);
    MulMono(HALF, HALF, r);
  }

  lemma TestFits(q: Limb, d0: Limb, r: Limb, lo: Limb)
    requires q < HALF && d0 < HALF && r < HALF && lo < HALF
    ensures HALF < BASE
    ensures WrapMul(q, d0) == q * d0 && WrapAdd(WrapMul(HALF, r), lo) == HALF * r + lo
  {
    BaseFacts();
    MulGrow(q, HALF, d0, HALF);
    MulLess(q, HALF, HALF);
    MulMono(q, d0, HALF);
    WrapMulExact(q, d0);
    MulMono(HALF, r + 1, HALF);
    Distribute(HALF, r, 1);
    WrapMulExact(HALF, r);
  }

  ghost predicate HalfDivisor(d: Limb, d1: Limb, d0: Limb) {
    0 < d1 < HALF <= 2 * d1 && d0 < HALF && d == d1 * HALF + d0
  }

  /** The comparison the source makes, evaluated in wrapping arithmetic. */
  predicate Overshoots(q: Limb, r: Limb, d0: Limb, lo: Limb)
  {
    BaseFacts();
    q >= HALF || WrapMul(q, d0) > WrapAdd(WrapMul(HALF, r), lo)
  }

  lemma OvershootsIsExact(u: Limb, lo: Limb, d: Limb, d1: Limb, d0: Limb, q: Limb, r: Limb)
    requires HalfDivisor(d, d1, d0) && u < d && lo < HALF && r < HALF && u == d1 * q + r
    ensures Overshoots(q, r, d0, lo) <==> u * HALF + lo < q * d
  {
    if q >= HALF {
      TooLarge(u, lo, d, q);
    } else {
      TestFits(q, d0, r, lo);
      TestIsExact(u, lo, d1, d0, d, q, r);
    }
  }

  /** `r` is what the estimate `q` leaves of `u`, by the high half of the divisor. */
  ghost predicate Leaves(u: int, d1: int, q: int, r: int) {
    u == d1 * q + r
  }

  lemma StartDigit(u: Limb, lo: Limb, d: Limb, d1: Limb, d0: Limb)
    requires HalfDivisor(d, d1, d0) && u < d && lo < HALF
    ensures Leaves(u, d1, u / d1, u % d1) && DigitNotLow(u, lo, d, u / d1)
    ensures 0 <= u / d1 <= HALF + 1 && 0 <= u % d1 < d1
  {
    var q, r := u / d1, u % d1;
    QuotientParts(u, d1);
    hide DigitNotLow, Pow;
    FirstEstimate(u, lo, d1, d0, d, q, r);
  }

  lemma QuotientParts(u: int, d: int)
    requires d > 0
    ensures u == d * (u / d) + u % d && 0 <= u % d < d
  {}

  /** A failed test lets the digit drop by one. */
  lemma LowerDigit(u: Limb, lo: Limb, d: Limb, d1: Limb, d0: Limb, q: Limb, r: Limb)
    requires HalfDivisor(d, d1, d0) && u < d && lo < HALF && r < HALF && Leaves(u, d1, q, r)
    requires Overshoots(q, r, d0, lo)
    ensures q > 0 && Leaves(u, d1, q - 1, r + d1) && DigitNotLow(u, lo, d, q - 1)
  {
    hide Overshoots, DigitNotLow, Leaves;
    OvershootsIsExact(u, lo, d, d1, d0, q, r) by { LeavesDef(u, d1, q, r); }
    PositiveDigit(u, lo, d, q, HALF);
    StillNotLow(u, lo, d, q);
    LeavesLower(u, d1, q, r);
  }

  lemma PositiveDigit(u: int, lo: int, d: int, q: int, half: int)
    requires u >= 0 && lo >= 0 && half > 0 && d > 0 && u * half + lo < q * d
    ensures q > 0
  {
    MulMono(half, 0, u);
    if q <= 0 { MulMono(d, q, 0); }
  }

  lemma StillNotLow(u: int, lo: int, d: int, q: int)
    requires u * HALF + lo < q * d
    ensures DigitNotLow(u, lo, d, q - 1)
  {}

  lemma LeavesDef(u: int, d1: int, q: int, r: int)
    requires Leaves(u, d1, q, r)
    ensures u == d1 * q + r
  {}

  lemma LeavesLower(u: int, d1: int, q: int, r: int)
    requires Leaves(u, d1, q, r)
    ensures Leaves(u, d1, q - 1, r + d1)
  {
    Distribute(d1, q, 1);
  }

  lemma AcceptDigit(u: Limb, lo: Limb, d: Limb, d1: Limb, d0: Limb, q: Limb, r: Limb)
    requires HalfDivisor(d, d1, d0) && u < d && lo < HALF && Leaves(u, d1, q, r)
    requires if r >= HALF then q <= HALF else !Overshoots(q, r, d0, lo)
    requires DigitNotLow(u, lo, d, q)
    ensures q < HALF && q * d <= u * HALF + lo < (q + 1) * d
  {
    hide Overshoots;
    if r >= HALF {
      BreakIsExact(u, lo, d1, d0, d, q, r);
    } else {
      OvershootsIsExact(u, lo, d, d1, d0, q, r);
    }
    if q >= HALF { TooLarge(u, lo, d, q); }
  }

  /** One half-limb digit of `(u * HALF + lo) / d`, from an estimate that is corrected at most twice. */
  method HalfDigit(u: Limb, lo: Limb, d: Limb, d1: Limb, d0: Limb) returns (q: Limb, ghost steps: nat)
    requires HalfDivisor(d, d1, d0) && u < d && lo < HALF
    ensures q < HALF && q * d <= u * HALF + lo < (q + 1) * d
    ensures steps <= 2
  {
    assert HALF > 1 && HALF + HALF <= BASE by { BaseFacts(); MulMono(HALF, 2, HALF); }
    StartDigit(u, lo, d, d1, d0);
    assert 0 < d1 < HALF <= 2 * d1;
    hide Overshoots, DigitNotLow, Leaves, HalfDivisor;
    q := u / d1;
    var r: Limb := u % d1;
    steps := 0;
    while Overshoots(q, r, d0, lo)
      invariant steps <= 1 && r < HALF && (steps == 1 ==> d1 <= r)
      invariant Leaves(u, d1, q, r) && q + steps <= HALF + 1 && DigitNotLow(u, lo, d, q)
      decreases q
    {
      LowerDigit(u, lo, d, d1, d0, q, r);
      q, r, steps := q - 1, r + d1, steps + 1;
      if r >= HALF {
        break;
      }
    }
    AcceptDigit(u, lo, d, d1, d0, q, r);
  }

  // ---------- two digits ----------

  /** `u * HALF + (lo - q * d)` in wrapping arithmetic, written both ways round. */
  lemma RemainderIsExact(u: Limb, lo: Limb, d: Limb, q: Limb)
    requires HALF < BASE && q * d <= u * HALF + lo < (q + 1) * d
    ensures WrapAdd(WrapMul(u, HALF), WrapSub(lo, WrapMul(q, d))) == u * HALF + lo - q * d < d
    ensures WrapSub(WrapAdd(WrapMul(u, HALF), lo), WrapMul(q, d)) == u * HALF + lo - q * d
  {
    Distribute(d, q, 1);
    assert lo % BASE == lo by { DivModUnique(lo, BASE, 0, lo); }
    WrapDifference(u * HALF, lo, q * d);
  }

  lemma TwoHalfDigits(u1: int, m: int, l: int, h: int, q1: int, q0: int, r1: int, r0: int, d: int)
    requires u1 * h + m == q1 * d + r1 && r1 * h + l == q0 * d + r0
    ensures u1 * (h * h) + (m * h + l) == (q1 * h + q0) * d + r0
  {
    calc {
      u1 * (h * h) + (m * h + l);
      (u1 * h + m) * h + l;
      (q1 * d + r1) * h + l;
      (q1 * h) * d + (q0 * d + r0);
      (q1 * h + q0) * d + r0;
    }
  }

  lemma TwoHalves(x: Limb, y: Limb)
    requires x < HALF && y < HALF
    ensures HALF < BASE && WrapAdd(WrapMul(x, HALF), y) == x * HALF + y
  {
    BaseFacts();
    assert HALF < BASE by { MulMono(HALF, 2, HALF); }
    MulMono(HALF, x + 1, HALF);
    Distribute(HALF, x, 1);
    WrapMulExact(x, HALF);
  }

  lemma HighHalfIsLarge(d1: int, d0: int, h: int)
    requires h > 0 && h % 2 == 0 && d0 < h && h * h <= 2 * (d1 * h + d0)
    ensures h <= 2 * d1
  {
    if 2 * d1 + 2 <= h {
      MulMono(h, 2 * d1 + 2, h);
      Distribute(h, 2 * d1, 2);
    }
  }

  lemma NormalizedHalves(d: Limb)
    requires BASE <= 2 * d
    ensures 0 <= d / HALF < HALF < BASE && 0 <= d % HALF < HALF && HalfDivisor(d, d / HALF, d % HALF)
  {
    HalfSplit(d);
    BaseFacts();
    var d1, d0: int := d / HALF, d % HALF;
    hide Pow;
    HighHalfIsLarge(d1, d0, HALF);
    MulMono(HALF, 2, HALF);
  }

  /** The quotient by a normalised divisor, half a limb at a time. */
  method DivNormalized(u1: Limb, u0: Limb, d: Limb) returns (q: Limb, r: Limb)
    requires BASE <= 2 * d && u1 < d
    ensures u1 * BASE + u0 == q * d + r && r < d
  {
    NormalizedHalves(d);
    HalfSplit(u0);
    hide HalfDivisor, WrapAdd, WrapSub, WrapMul;
    var d1, d0 := d / HALF, d % HALF;
    var msw, lsw := u0 / HALF, u0 % HALF;
    var q1, _ := HalfDigit(u1, msw, d, d1, d0);
    RemainderIsExact(u1, msw, d, q1);
    var rAX := WrapAdd(WrapMul(u1, HALF), WrapSub(msw, WrapMul(q1, d)));
    var q0, _ := HalfDigit(rAX, lsw, d, d1, d0);
    RemainderIsExact(rAX, lsw, d, q0);
    r := WrapSub(WrapAdd(WrapMul(rAX, HALF), lsw), WrapMul(q0, d));
    TwoHalves(q1, q0);
    q := WrapAdd(WrapMul(q1, HALF), q0);
    TwoHalfDigits(u1, msw, lsw, HALF, q1, q0, rAX, r, d);
    assert BASE == HALF * HALF by { BaseFacts(); }
  }

  lemma ScaledBelow(u: int, d: int, w: int, hi: int)
    requires w >= 1 && 0 <= u < d && 0 <= hi < w
    ensures 0 <= u * w + hi < d * w
  {
    MulMono(w, u + 1, d);
    MulMono(w, 0, u);
    Distribute(w, u, 1);
  }

  lemma ScaledDividend(u1: int, u0: int, w: int, hi: int, lo: int)
    requires u0 * w == lo + hi * BASE
    ensures (u1 * BASE + u0) * w == (u1 * w + hi) * BASE + lo
  {
    calc {
      (u1 * BASE + u0) * w;
      (u1 * w) * BASE + u0 * w;
      (u1 * w + hi) * BASE + lo;
    }
  }

  lemma Unscale(u: int, d: int, w: int, q: int, r: int)
    requires w >= 1 && u * w == q * (d * w) + r && 0 <= r < d * w
    ensures r % w == 0 && 0 <= r / w < d && u == q * d + r / w
  {
    var t := u - q * d;
    assert r == t * w by {
      MulAssoc(q, d, w);
      Distribute(w, u, q * d);
    }
    DivModUnique(r, w, t, 0);
    MulStrict(w, t, d);
    if t < 0 { MulMono(w, t, -1); }
  }

  /** A shift that loses no bits. */
  lemma ShiftIsExact(x: Limb, s: nat)
    requires x * Pow(2, s) < BASE
    ensures ShiftLeft(x, s) == x * Pow(2, s) && ShiftLeft(x, s) % Pow(2, s) == 0
  {
    var w := Pow(2, s);
    hide Pow;
    MulMono(w, 0, x);
    DivModUnique(x * w, BASE, 0, x * w);
    DivModUnique(x * w, w, x, 0);
  }

  /** Shifting out the leading zeros puts the top bit of the divisor at the top. */
  lemma TopBitAtTop(d: Limb, s: nat)
    requires s < BIL && IsBitLen(d, BIL - s)
    ensures d * Pow(2, s) < BASE <= 2 * (d * Pow(2, s))
  {
    var w, x, y := Pow(2, s), Pow(2, BIL - s), Pow(2, BIL - s - 1);
    assert BASE == x * w by { PowAdd(2, BIL - s, s); }
    assert Pow(2, BIL - 1) == y * w by { PowAdd(2, BIL - s - 1, s); }
    assert BASE == 2 * Pow(2, BIL - 1) by { BaseFacts(); }
    hide Pow;
    TopBitProduct(d, w, x, y, BASE, Pow(2, BIL - 1));
  }

  lemma TopBitProduct(d: int, w: int, x: int, y: int, base: int, half: int)
    requires w > 0 && base == x * w && half == y * w && base == 2 * half && y <= d < x
    ensures d * w < base <= 2 * (d * w)
  {
    MulLess(d, x, w);
    MulMono(w, y, d);
  }

  /** The leading zeros of the divisor shift out of both operands. */
  method Normalize(u1: Limb, u0: Limb, d: Limb, s: nat) returns (v1: Limb, v0: Limb, e: Limb)
    requires s < BIL && IsBitLen(d, BIL - s) && u1 < d
    ensures e == d * Pow(2, s) && BASE <= 2 * e && v1 < e
    ensures (u1 * BASE + u0) * Pow(2, s) == v1 * BASE + v0
  {
    TopBitAtTop(d, s);
    hide *;
    ghost var w := Pow(2, s);
    e := ShiftLeft(d, s);
    ShiftIsExact(d, s);
    assert u1 * w < d * w by { hide Pow; MulLess(u1, d, w); }
    v1 := ShiftLeft(u1, s);
    ShiftIsExact(u1, s);
    if s == 0 {
      PowZero();
      v0 := u0;
    } else {
      hide Pow;
      ShiftSplit(u0, s);
      ghost var hi: int := ShiftRight(u0, BIL - s);
      OrIsSum(v1, ShiftRight(u0, BIL - s), s);
      v0 := ShiftLeft(u0, s);
      ScaledBelow(u1, d, w, hi);
      ScaledDividend(u1, u0, w, hi, v0);
      v1 := OrBits(v1, ShiftRight(u0, BIL - s));
    }
  }

  /** `u1:u0` divided by `d`: both results are all ones on overflow, as for division by zero. */
  method IntDivInt(u1: Limb, u0: Limb, d: Limb) returns (q: Limb, r: Limb)
    ensures d == 0 || u1 >= d ==> q == BASE - 1 && r == BASE - 1
    ensures d != 0 && u1 < d ==> q == (u1 * BASE + u0) / d && r == (u1 * BASE + u0) % d
  {
    BaseFacts();
    if d == 0 || u1 >= d {
      return BASE - 1, BASE - 1;
    }
    var s := CountLeadingZeros(d);
    if s == BIL { assert false by { PowZero(); } }
    var v1, v0, e := Normalize(u1, u0, d, s);
    var t;
    q, t := DivNormalized(v1, v0, e);
    hide Pow, IsBitLen;
    Unscale(u1 * BASE + u0, d, Pow(2, s), q, t);
    r := ShiftRight(t, s);
    DivModUnique(u1 * BASE + u0, d, q, r);
  }
}
