/** Bit-level queries and shifts. */
module MpiShift {
  import opened Arithmetic
  import opened Limbs
  import opened MpiCore

  /** Bit `j` of a limb. */
  function LimbBit(x: Limb, j: nat): int {
    (x / Pow(2, j)) % 2
  }

  // ---------- bit length ----------

  /** `r` is the number of bits of `v`. */
  ghost predicate IsBitLen(v: nat, r: nat) {
    v < Pow(2, r) && (r > 0 ==> Pow(2, r - 1) <= v)
  }

  lemma BitLenUnique(v: nat, r: nat, q: nat)
    requires IsBitLen(v, r) && IsBitLen(v, q)
    ensures r == q
  {
    if r < q { PowMonotonic(2, r, q - 1); }
    if q < r { PowMonotonic(2, q, r - 1); }
  }

  /** Leading zero bits of a limb: the mask walks down from the top bit. */
  method CountLeadingZeros(x: Limb) returns (j: nat)
    ensures j <= BIL && IsBitLen(x, BIL - j)
  {
    j := 0;
    while j < BIL && LimbBit(x, BIL - 1 - j) == 0
      invariant 0 <= j <= BIL
      invariant x < Pow(2, BIL - j)
    {
      TopBitClear(x, BIL - 1 - j);
      j := j + 1;
    }
    if j < BIL {
      TopBitSet(x, BIL - 1 - j);
    }
  }

  lemma TopBitClear(x: nat, k: nat)
    requires x < Pow(2, k + 1) && (x / Pow(2, k)) % 2 == 0
    ensures x < Pow(2, k)
  {
    var h := Pow(2, k);
    assert Pow(2, k + 1) == 2 * h;
    DivBounds(x, h);
    var q := x / h;
    if q >= 2 { MulMono(h, 2, q); }
  }

  lemma TopBitSet(x: nat, k: nat)
    requires (x / Pow(2, k)) % 2 != 0
    ensures Pow(2, k) <= x
  {
    hide *;
    var h := Pow(2, k);
    DivBounds(x, h);
    OddQuotient(x / h);
    MulMono(h, 1, x / h);
  }

  lemma OddQuotient(q: int)
    requires q >= 0 && q % 2 != 0
    ensures q >= 1
  {}

  lemma StackBits(v: nat, x: nat, n: nat, j: nat)
    requires v < Pow(2, n) && IsBitLen(x, j) && (j == 0 ==> v == 0 && n == 0)
    ensures IsBitLen(v + x * Pow(2, n), n + j)
  {
    hide Pow;
    if j > 0 {
      PowAdd(2, n, j);
      PowAdd(2, n, j - 1);
      Stacked(v, x, Pow(2, n), Pow(2, j), Pow(2, j - 1));
    } else {
      PowZero();
    }
  }

  lemma Stacked(v: nat, x: nat, w: int, high: int, low: int)
    requires v < w && low <= x < high
    ensures v + x * w < w * high && w * low <= v + x * w
  {
    DigitBelow(v, x, w, high);
    MulMono(w, low, x);
  }

  /** Stacking a top limb of `j` bits on `i` full limbs. */
  lemma BitLenStack(p: seq<Limb>, i: nat, j: nat)
    requires i < |p| && IsBitLen(p[i], j) && (j == 0 ==> i == 0)
    requires forall k :: i < k < |p| ==> p[k] == 0
    ensures IsBitLen(Val(p), i * BIL + j)
  {
    hide Val, Weight, IsBitLen, Pow;
    ValTrim(p, i + 1);
    ValPrefix(p, i);
    ValBound(p[..i]);
    WeightIsPow2(i);
    if i == 0 {
      assert p[..i] == [];
      ValZero(p[..i]);
    }
    StackBits(Val(p[..i]), p[i], i * BIL, j);
  }

  method BitLen(X: Mpi) returns (r: nat)
    ensures IsBitLen(X.Mag(), r)
    ensures r <= |X.p| * BIL
  {
    if |X.p| == 0 {
      return 0;
    }
    var i := |X.p| - 1;
    while i > 0 && X.p[i] == 0
      invariant 0 <= i < |X.p|
      invariant forall k :: i < k < |X.p| ==> X.p[k] == 0
    {
      i := i - 1;
    }
    var z := CountLeadingZeros(X.p[i]);
    var j := BIL - z;
    BitLenStack(X.p, i, j);
    MulMono(BIL, i + 1, |X.p|);
    Distribute(BIL, i, 1);
    return i * BIL + j;
  }

  // ---------- trailing zeros ----------

  /** Bit `n` is set and every bit below is clear. */
  ghost predicate IsLsb(v: nat, n: nat) {
    v % Pow(2, n) == 0 && (v / Pow(2, n)) % 2 == 1
  }

  /** A number has one lowest bit. */
  lemma LsbUnique(v: nat, m: nat, n: nat)
    requires IsLsb(v, m) && IsLsb(v, n)
    ensures m == n
  {
    if m < n { LsbNotBelow(v, m, n); }
    if n < m { LsbNotBelow(v, n, m); }
  }

  lemma LsbNotBelow(v: nat, m: nat, n: nat)
    requires m < n && v % Pow(2, n) == 0
    ensures (v / Pow(2, m)) % 2 == 0
  {
    PowAdd(2, m, n - m);
    Pow2Succ(n - m);
    hide Pow;
    BelowMultiple(v, Pow(2, m), Pow(2, n - m - 1), Pow(2, n));
  }

  lemma BelowMultiple(v: nat, h: int, r: int, w: int)
    requires h > 0 && w > 0 && w == h * (2 * r) && v % w == 0
    ensures (v / h) % 2 == 0
  {
    var q := v / w;
    assert v == w * q + v % w;
    LsbRegrouped(h, r, q);
    DivModUnique(v, h, 2 * (r * q), 0);
    EvenTwice(r * q);
  }

  lemma EvenTwice(x: int)
    ensures (2 * x) % 2 == 0
  {}

  lemma LsbRegrouped(h: int, r: int, q: int)
    ensures (h * (2 * r)) * q == (2 * (r * q)) * h
  {}

  lemma ClearBit(v: nat, n: nat)
    requires v % Pow(2, n) == 0 && (v / Pow(2, n)) % 2 == 0
    ensures v % Pow(2, n + 1) == 0
  {
    var h := Pow(2, n);
    var q := v / h;
    assert v == h * q + v % h;
    assert q == 2 * (q / 2);
    MulAssoc(h, 2, q / 2);
    assert Pow(2, n + 1) == 2 * h;
    DivModUnique(v, 2 * h, q / 2, 0);
  }

  /** Bit `i * BIL + j` of the number is bit `j` of limb `i`. */
  lemma BitOfLimb(p: seq<Limb>, i: nat, j: nat)
    requires i < |p| && j < BIL
    ensures (Val(p) / Pow(2, i * BIL + j)) % 2 == LimbBit(p[i], j)
  {
    hide Val, Weight;
    ValDigit(p, i);
    WeightIsPow2(i);
    var v, w := Val(p), Pow(2, i * BIL);
    var q, r: int := Val(p[i..]), p[i];
    ValLow(p[i..]);
    var t := Val(p[i..][1..]);
    PowAdd(2, i * BIL, j);
    DivDiv(v, w, Pow(2, j));
    PowAdd(2, j, BIL - j);
    DigitShift(t, r, Pow(2, j), BIL - j);
  }

  /** Dividing by a power of two below the base only drops bits of the low limb. */
  lemma DigitShift(t: nat, r: nat, h: int, k: nat)
    requires h >= 1 && k > 0 && BASE == h * Pow(2, k)
    ensures (r + BASE * t) / h == r / h + Pow(2, k) * t
    ensures ((r + BASE * t) / h) % 2 == (r / h) % 2
  {
    hide Pow;
    var g := Pow(2, k);
    MulAssoc(h, g, t);
    DivBounds(r, h);
    Distribute(h, r / h, g * t);
    DivModUnique(r + BASE * t, h, r / h + g * t, r % h);
    assert g == 2 * Pow(2, k - 1) by { Pow2Succ(k); }
    MulAssoc(2, Pow(2, k - 1), t);
    EvenPart(r / h + g * t, r / h, Pow(2, k - 1) * t);
  }

  lemma Pow2Succ(k: nat)
    requires k > 0
    ensures Pow(2, k) == 2 * Pow(2, k - 1)
  {}

  lemma AnyModOne(v: int)
    ensures v % Pow(2, 0) == 0
  {}

  lemma LimbAllClear(x: Limb)
    requires x % Pow(2, BIL) == 0
    ensures x == 0
  {
    DivModUnique(x, BASE, 0, x);
  }

  /** The number of low zero bits; 0 for the number zero. */
  method Lsb(X: Mpi) returns (count: nat)
    ensures X.Mag() == 0 ==> count == 0
    ensures X.Mag() != 0 ==> IsLsb(X.Mag(), count)
  {
    hide Val, Weight, Pow;
    var i := 0;
    count := 0;
    assert X.Mag() % Pow(2, 0) == 0 by { AnyModOne(X.Mag()); }
    while i < |X.p|
      invariant 0 <= i <= |X.p| && count == i * BIL
      invariant X.Mag() % Pow(2, count) == 0
      invariant forall k :: 0 <= k < i ==> X.p[k] == 0
    {
      var j := 0;
      AnyModOne(X.p[i]);
      while j < BIL
        invariant 0 <= j <= BIL && count == i * BIL + j
        invariant X.Mag() % Pow(2, count) == 0
        invariant X.p[i] % Pow(2, j) == 0
      {
        BitOfLimb(X.p, i, j);
        if LimbBit(X.p[i], j) != 0 {
          return;
        }
        ClearBit(X.Mag(), count);
        ClearBit(X.p[i], j);
        j, count := j + 1, count + 1;
      }
      LimbAllClear(X.p[i]);
      Distribute(BIL, i, 1);
      i := i + 1;
    }
    ValZero(X.p);
    return 0;
  }

  // ---------- left shift ----------

  function BitsToLimbs(bits: nat): nat {
    bits / BIL + (if bits % BIL != 0 then 1 else 0)
  }

  function Max(x: nat, y: nat): nat {
    if x < y then y else x
  }

  lemma BitsFit(bits: nat, n: nat)
    ensures bits <= BitsToLimbs(bits) * BIL
    ensures n * BIL < bits ==> n < BitsToLimbs(bits)
    ensures bits <= n * BIL ==> BitsToLimbs(bits) <= n
  {
    var q, r := bits / BIL, bits % BIL;
    assert bits == BIL * q + r;
    Distribute(BIL, q, 1);
    if n * BIL < bits && BitsToLimbs(bits) <= n { MulMono(BIL, BitsToLimbs(bits), n); }
    if bits <= n * BIL && n < BitsToLimbs(bits) {
      if r == 0 { MulMono(BIL, n + 1, q); } else { MulMono(BIL, n, q); }
    }
  }

  /** Moves every limb up by `v` places, from the top down, and clears the low ones. */
  method LimbsUp(X: Mpi, v: nat)
    requires v <= |X.p| && forall k :: |X.p| - v <= k < |X.p| ==> X.p[k] == 0
    modifies X`p
    ensures |X.p| == old(|X.p|) && X.Mag() == old(X.Mag()) * Weight(v)
    ensures forall k :: 0 <= k < v ==> X.p[k] == 0
  {
    hide Val, Weight;
    ghost var p0, n := X.p, |X.p|;
    var i := |X.p|;
    while i > v
      invariant v <= i <= |X.p| == n
      invariant forall k :: 0 <= k < i ==> X.p[k] == p0[k]
      invariant forall k :: i <= k < n ==> X.p[k] == p0[k - v]
    {
      X.p := X.p[i - 1 := X.p[i - v - 1]];
      i := i - 1;
    }
    BaseFacts();
    while i > 0
      invariant 0 <= i <= v && |X.p| == n
      invariant forall k :: i <= k < v ==> X.p[k] == 0
      invariant forall k :: v <= k < n ==> X.p[k] == p0[k - v]
    {
      X.p := X.p[i - 1 := 0];
      i := i - 1;
    }
    UpIs(X.p, p0, v);
    MovedUp(p0, v);
  }

  lemma UpIs(p: seq<Limb>, p0: seq<Limb>, v: nat)
    requires v <= |p| == |p0| && (forall k :: 0 <= k < v ==> p[k] == 0) && forall k :: v <= k < |p| ==>
      p[k] == p0[k - v]
    ensures p == Zeros(v) + p0[..|p| - v]
  {
    BaseFacts();
    hide Pow;
  }

  lemma MovedUp(p: seq<Limb>, v: nat)
    requires v <= |p| && forall k :: |p| - v <= k < |p| ==> p[k] == 0
    ensures Val(Zeros(v) + p[..|p| - v]) == Val(p) * Weight(v)
  {
    hide Val, Weight;
    ValConcat(Zeros(v), p[..|p| - v]);
    ValZero(Zeros(v));
    ValTrim(p, |p| - v);
  }

  /** Splitting `x << t` into the limb kept and the bits that leave it. */
  lemma ShiftSplit(x: Limb, t: nat)
    requires 0 < t < BIL
    ensures x * Pow(2, t) == ShiftLeft(x, t) + ShiftRight(x, BIL - t) * BASE
    ensures ShiftRight(x, BIL - t) < Pow(2, t)
    ensures ShiftLeft(x, t) + Pow(2, t) <= BASE
    ensures ShiftLeft(x, t) % Pow(2, t) == 0
  {
    PowAdd(2, t, BIL - t);
    var h, g, v: int := Pow(2, t), Pow(2, BIL - t), x;
    hide Pow;
    ShiftSplitInt(v, h, g);
  }

  lemma ShiftSplitInt(x: nat, h: int, g: int)
    requires h >= 1 && g >= 1 && x < h * g == BASE
    ensures x * h == (x * h) % BASE + (x / g) * BASE
    ensures x / g < h && (x * h) % BASE + h <= BASE
    ensures (x * h) % BASE % h == 0
  {
    var q, r := x / g, x % g;
    assert x == g * q + r;
    if q >= h { MulMono(g, h, q); }
    ShiftedParts(x, h, g, q, r);
    DivModUnique(x * h, BASE, q, r * h);
    DivModUnique(r * h, h, r, 0);
  }

  lemma ShiftedParts(x: int, h: int, g: int, q: int, r: int)
    requires h >= 1 && 0 <= r < g && x == g * q + r
    ensures x * h == q * (h * g) + r * h && 0 <= r * h && r * h + h <= h * g
  {
    calc {
      x * h;
      (g * q + r) * h;
      q * (h * g) + r * h;
    }
    MulMono(h, r + 1, g);
    Distribute(h, r, 1);
    MulMono(h, 0, r);
  }

  /** Bitwise or. */
  function OrBits(a: nat, b: nat): nat {
    if a == 0 && b == 0 then 0
    else 2 * OrBits(a / 2, b / 2) + (if a % 2 == 1 || b % 2 == 1 then 1 else 0)
  }

  /** Or is a sum when the low `t` bits of one are clear and the other has no others. */
  lemma {:induction false} OrIsSum(a: nat, b: nat, t: nat)
    requires a % Pow(2, t) == 0 && b < Pow(2, t)
    ensures OrBits(a, b) == a + b
  {
    if a == 0 && b == 0 {
    } else if t == 0 {
      OrZero(a);
    } else {
      var h := Pow(2, t - 1);
      assert Pow(2, t) == 2 * h;
      var q := a / (2 * h);
      assert a == 2 * h * q by { assert a == (2 * h) * q + a % (2 * h); }
      MulAssoc(2, h, q);
      DivModUnique(a, 2, h * q, 0);
      DivModUnique(h * q, h, q, 0);
      OrIsSum(a / 2, b / 2, t - 1);
    }
  }

  lemma {:induction false} OrZero(a: nat)
    ensures OrBits(a, 0) == a
  {
    if a != 0 { OrZero(a / 2); }
  }

  /** The bits carried in from the limb below fit exactly into those shifted free. */
  lemma MergeBits(x: Limb, t: nat, r0: Limb)
    requires 0 < t < BIL && r0 < Pow(2, t)
    ensures OrBits(ShiftLeft(x, t), r0) == ShiftLeft(x, t) + r0 < BASE
    ensures x * Pow(2, t) == ShiftLeft(x, t) + ShiftRight(x, BIL - t) * BASE
    ensures ShiftRight(x, BIL - t) < Pow(2, t)
  {
    hide Pow, ShiftLeft, ShiftRight, OrBits;
    ShiftSplit(x, t);
    OrIsSum(ShiftLeft(x, t), r0, t);
  }

  /** Shifts by `t` bits, carrying the bits that leave one limb into the next. */
  method BitsUp(X: Mpi, v: nat, t: nat)
    requires v <= |X.p| && 0 < t < BIL
    requires forall k :: 0 <= k < v ==> X.p[k] == 0
    requires X.Mag() * Pow(2, t) < Weight(|X.p|)
    modifies X`p
    ensures |X.p| == old(|X.p|) && X.Mag() == old(X.Mag()) * Pow(2, t)
  {
    hide Val, Weight, Pow, ShiftLeft, ShiftRight, OrBits;
    BaseFacts();
    var i, r0: Limb := v, 0;
    ghost var p0, n, h := X.p, |X.p|, Pow(2, t);
    assert Pow(2, t) >= 1;
    ValZero(p0[..v]);
    while i < |X.p|
      invariant v <= i <= |X.p| == n && r0 < h
      invariant X.p[i..] == p0[i..]
      invariant Val(X.p[..i]) + r0 * Weight(i) == Val(p0[..i]) * h
    {
      assert X.p[i] == p0[i] by { assert X.p[i..][0] == p0[i..][0]; }
      MergeBits(X.p[i], t, r0);
      var r1 := ShiftRight(X.p[i], BIL - t);
      ghost var q, low, x := X.p, ShiftLeft(X.p[i], t), X.p[i];
      X.p := X.p[i := OrBits(ShiftLeft(X.p[i], t), r0)];
      assert X.p[..i] == q[..i];
      ValPrefix(p0, i);
      ValPrefix(X.p, i);
      WeightSucc(i);
      ShiftStep(Val(q[..i]), Val(p0[..i]), h, Weight(i), x, low, r0, r1);
      r0 := r1;
      i := i + 1;
      assert X.p[i..] == p0[i..] by { assert q[i..] == q[i - 1..][1..] && p0[i..] == p0[i - 1..][1..]; }
    }
    assert X.p[..n] == X.p && p0[..n] == p0;
    if r0 > 0 { MulMono(Weight(n), 1, r0); }
  }

  lemma ShiftStep(a: int, b: int, h: int, w: int, x: int, low: int, r0: int, r1: int)
    requires a + r0 * w == b * h && x * h == low + r1 * BASE
    ensures a + (low + r0) * w + r1 * (BASE * w) == (b + x * w) * h
  {
    calc {
      (b + x * w) * h;
      b * h + (x * h) * w;
      a + r0 * w + (low + r1 * BASE) * w;
      a + (low + r0) * w + r1 * (BASE * w);
    }
  }

  /** X <<= count. */
  method ShiftL(X: Mpi, count: nat) returns (st: Status)
    modifies X`p
    ensures st == Ok || st == AllocFailed
    ensures st == Ok ==> X.Mag() == old(X.Mag()) * Pow(2, count)
    ensures st == Ok ==>
      forall r: nat :: IsBitLen(old(X.Mag()), r) ==> |X.p| == Max(old(|X.p|), BitsToLimbs(r + count))
  {
    hide Val, Weight, Pow;
    var b := BitLen(X);
    var i := b + count;
    forall r: nat | IsBitLen(old(X.Mag()), r)
      ensures r == b
    {
      BitLenUnique(old(X.Mag()), r, b);
    }
    BitsFit(i, |X.p|);
    if |X.p| * BIL < i {
      st := X.Grow(BitsToLimbs(i));
      if st != Ok { return; }
    }
    assert i <= |X.p| * BIL;
    ShiftFits(X.Mag(), b, count, |X.p|);
    ShiftUp(X, count);
    return Ok;
  }

  /** First whole limbs, then the remaining bits. */
  method ShiftUp(X: Mpi, count: nat)
    requires X.Mag() * Pow(2, count) < Weight(|X.p|)
    requires count <= |X.p| * BIL
    modifies X`p
    ensures |X.p| == old(|X.p|) && X.Mag() == old(X.Mag()) * Pow(2, count)
  {
    hide Val, Weight, Pow;
    var v0, t1 := count / BIL, count % BIL;
    ghost var m := X.Mag();
    LimbsBelow(v0, count, |X.p|);
    ShiftRoom(X.p, v0, count);
    SplitShift(m, v0, t1);
    if v0 > 0 {
      LimbsUp(X, v0);
    } else {
      WeightZero();
    }
    if t1 > 0 {
      BitsUp(X, v0, t1);
    } else {
      PowZero();
    }
  }

  lemma SplitShift(m: int, v: nat, t: nat)
    ensures m * Pow(2, v * BIL + t) == m * Weight(v) * Pow(2, t)
  {
    hide Weight, Pow;
    WeightIsPow2(v);
    PowAdd(2, v * BIL, t);
    MulAssoc(m, Weight(v), Pow(2, t));
  }

  lemma WeightZero()
    ensures Weight(0) == 1
  {}

  lemma PowZero()
    ensures Pow(2, 0) == 1
  {}

  /** The shifted number fits in `n` limbs. */
  lemma ShiftFits(m: nat, b: nat, count: nat, n: nat)
    requires m < Pow(2, b) && b + count <= n * BIL
    ensures m * Pow(2, count) < Weight(n)
  {
    assert Pow(2, b) * Pow(2, count) <= Weight(n) by {
      PowAdd(2, b, count);
      PowMonotonic(2, b + count, n * BIL);
      WeightIsPow2(n);
    }
    assert Pow(2, count) >= 1;
    hide Pow, Weight;
    MulLess(m, Pow(2, b), Pow(2, count));
  }

  /** A set limb `k` cannot move up by `v` limbs past the end. */
  lemma TopStays(p: seq<Limb>, k: nat, v: nat, c: int)
    requires k < |p| <= k + v && p[k] != 0 && Weight(v) <= c
    ensures Weight(|p|) <= Val(p) * c
  {
    hide Val, Weight;
    ValTop(p, k);
    WeightAdd(k, v);
    WeightMono(|p|, k + v);
    assert Weight(k) >= 1 && Weight(v) >= 1;
    MulGrow(Weight(k), Val(p), Weight(v), c);
  }

  /** A number that fits after the shift leaves room for the limbs that move up. */
  lemma ShiftRoom(p: seq<Limb>, v: nat, count: nat)
    requires v * BIL <= count && Val(p) * Pow(2, count) < Weight(|p|)
    ensures forall k :: 0 <= k < |p| && |p| - v <= k ==> p[k] == 0
  {
    assert Weight(v) <= Pow(2, count) by {
      WeightIsPow2(v);
      PowMonotonic(2, v * BIL, count);
    }
    hide Val, Weight, Pow;
    forall k | 0 <= k < |p| && |p| - v <= k
      ensures p[k] == 0
    {
      if p[k] != 0 { TopStays(p, k, v, Pow(2, count)); }
    }
  }

  lemma LimbsBelow(v: nat, count: nat, n: nat)
    requires v == count / BIL && count <= n * BIL
    ensures v <= n && count == v * BIL + count % BIL
  {
    if n < v { MulMono(BIL, n + 1, v); }
  }

  // ---------- right shift ----------

  /** Moves every limb down by `v` places and clears the ones left on top. */
  method LimbsDown(X: Mpi, v: nat)
    requires v <= |X.p|
    modifies X`p
    ensures |X.p| == old(|X.p|) && X.Mag() == old(X.Mag()) / Weight(v)
  {
    hide Val, Weight;
    ghost var p0, n := X.p, |X.p|;
    var i := 0;
    while i < |X.p| - v
      invariant 0 <= i <= n - v && |X.p| == n
      invariant forall k :: 0 <= k < i ==> X.p[k] == p0[k + v]
      invariant forall k :: i <= k < n ==> X.p[k] == p0[k]
    {
      X.p := X.p[i := X.p[i + v]];
      i := i + 1;
    }
    BaseFacts();
    while i < |X.p|
      invariant n - v <= i <= n == |X.p|
      invariant forall k :: 0 <= k < n - v ==> X.p[k] == p0[k + v]
      invariant forall k :: n - v <= k < i ==> X.p[k] == 0
    {
      X.p := X.p[i := 0];
      i := i + 1;
    }
    MovedDown(X.p, p0, v);
  }

  lemma MovedDown(p: seq<Limb>, p0: seq<Limb>, v: nat)
    requires v <= |p| == |p0| && forall k :: 0 <= k < |p| - v ==> p[k] == p0[k + v]
    requires forall k :: |p| - v <= k < |p| ==> p[k] == 0
    ensures Val(p) == Val(p0) / Weight(v)
  {
    hide Val, Weight;
    ValTrim(p, |p| - v);
    assert p[..|p| - v] == p0[v..];
    ValSplit(p0, v);
    DivModUnique(Val(p0), Weight(v), Val(p0[v..]), Val(p0[..v]));
  }

  lemma {:induction false} OrCommutes(a: nat, b: nat)
    ensures OrBits(a, b) == OrBits(b, a)
  {
    if a != 0 || b != 0 { OrCommutes(a / 2, b / 2); }
  }

  /** Splitting `x` into what stays in the limb and the bits that drop into the one below. */
  lemma DropSplit(x: nat, h: int, g: int)
    requires h >= 1 && g >= 1 && x < h * g == BASE
    ensures 0 <= x % h < h && x / h < g && (x * g) % BASE == (x % h) * g && (x * g) % BASE % g == 0
  {
    var q, r := x / h, x % h;
    assert x == h * q + r;
    if q >= g { MulMono(h, g, q); }
    calc {
      x * g;
      (h * q + r) * g;
      q * (h * g) + r * g;
    }
    MulLess(r, h, g);
    MulMono(g, 0, r);
    DivModUnique(x * g, BASE, q, r * g);
    DivModUnique(r * g, g, r, 0);
  }

  /** The limbs `v` seen so far are `v'` shifted back up by `h`, plus the bits `rem` on their way down, held in `r0`. */
  ghost predicate Dropping(v: int, v': int, h: int, g: int, rem: int, r0: int) {
    0 <= rem < h && r0 == rem * g && v == v' * h + rem
  }

  lemma DropStep(x: int, v: int, v': int, h: int, g: int, q: int, r: int, r': int)
    requires v == v' * h + r && x == q * h + r' && h * g == BASE
    ensures x + BASE * v == ((q + r * g) + BASE * v') * h + r'
  {
    calc {
      x + BASE * v;
      q * h + r' + BASE * (v' * h + r);
      q * h + r' + (BASE * v') * h + (h * g) * r;
      ((q + r * g) + BASE * v') * h + r';
    }
  }

  lemma DropLimb(x: int, v: int, v': int, h: int, g: int, rem: int, r0: int)
    requires h >= 1 && g >= 1 && 0 <= x < h * g == BASE && Dropping(v, v', h, g, rem, r0)
    ensures Dropping(x + BASE * v, x / h + r0 + BASE * v', h, g, x % h, (x * g) % BASE)
    ensures x / h < g && r0 % g == 0 && 0 <= r0 && r0 + g <= BASE
  {
    DropSplit(x, h, g);
    DivBounds(x, h);
    DropStep(x, v, v', h, g, x / h, rem, x % h);
    HeldBits(h, g, rem);
  }

  lemma HeldBits(h: int, g: int, rem: int)
    requires h >= 1 && g >= 1 && h * g == BASE && 0 <= rem < h
    ensures (rem * g) % g == 0 && 0 <= rem * g && rem * g + g <= BASE
  {
    DivModUnique(rem * g, g, rem, 0);
    MulMono(g, rem + 1, h);
    MulMono(g, 0, rem);
    Distribute(g, rem, 1);
  }

  lemma DroppedAll(v: int, v': int, h: int, g: int, rem: int, r0: int)
    requires Dropping(v, v', h, g, rem, r0)
    ensures v' == v / h
  {
    DivModUnique(v, h, v', rem);
  }

  lemma NothingDropped(h: int, g: int)
    requires h >= 1
    ensures Dropping(0, 0, h, g, 0, 0)
  {}

  /** Writing the shifted limb: `p[i]` receives its own high bits and those from above. */
  lemma DropInto(x: Limb, t: nat, r0: Limb)
    requires 0 < t < BIL && ShiftRight(x, t) < Pow(2, BIL - t) && r0 % Pow(2, BIL - t) == 0
    ensures OrBits(ShiftRight(x, t), r0) == ShiftRight(x, t) + r0
  {
    OrIsSum(r0, ShiftRight(x, t), BIL - t);
    OrCommutes(r0, ShiftRight(x, t));
  }

  /** Shifts down by `t` bits, from the top limb; the bits below the point are lost. */
  method BitsDown(X: Mpi, t: nat)
    requires 0 < t < BIL
    modifies X`p
    ensures |X.p| == old(|X.p|) && X.Mag() == old(X.Mag()) / Pow(2, t)
  {
    hide Val, Weight, Pow, OrBits, Dropping;
    ghost var p0, n, rem, h, g := X.p, |X.p|, 0, Pow(2, t), Pow(2, BIL - t);
    assert h * g == BASE by { PowAdd(2, t, BIL - t); }
    var i, r0: Limb := |X.p|, 0;
    ValZero(p0[n..]);
    NothingDropped(h, g);
    while i > 0
      invariant 0 <= i <= n == |X.p|
      invariant X.p[..i] == p0[..i]
      invariant Dropping(Val(p0[i..]), Val(X.p[i..]), h, g, rem, r0)
    {
      i := i - 1;
      assert X.p[i] == p0[i] by { assert X.p[..i + 1][i] == p0[..i + 1][i]; }
      ghost var q := X.p;
      DropLimb(X.p[i], Val(p0[i + 1..]), Val(q[i + 1..]), h, g, rem, r0);
      DropInto(X.p[i], t, r0);
      var r1 := ShiftLeft(X.p[i], BIL - t);
      rem := X.p[i] % Pow(2, t);
      X.p := X.p[i := OrBits(ShiftRight(X.p[i], t), r0)];
      assert X.p[i..][1..] == q[i + 1..] && p0[i..][1..] == p0[i + 1..];
      ValLow(p0[i..]);
      ValLow(X.p[i..]);
      r0 := r1;
      assert X.p[..i] == p0[..i] by { assert X.p[..i] == q[..i + 1][..i] && p0[..i] == p0[..i + 1][..i]; }
    }
    assert X.p[0..] == X.p && p0[0..] == p0;
    DroppedAll(Val(p0), Val(X.p), h, g, rem, r0);
  }

  /** X >>= count, on the magnitude: the sign stays, so a negative number rounds toward zero. */
  method ShiftR(X: Mpi, count: nat) returns (st: Status)
    modifies X
    ensures st == Ok || st == AllocFailed
    ensures st == Ok ==> X.Mag() == old(X.Mag()) / Pow(2, count)
    ensures st == Ok ==> (X.s == old(X.s) || X.Mag() == 0) && |X.p| >= old(|X.p|)
    ensures st == Ok && old(|X.p|) > 0 ==> |X.p| == old(|X.p|)
  {
    hide Val, Weight, Pow;
    var v0, v1 := count / BIL, count % BIL;
    ghost var m := X.Mag();
    assert count == v0 * BIL + v1;
    if v0 > |X.p| || (v0 == |X.p| && v1 > 0) {
      ShiftedOut(X.p, v0, v1);
      st := X.Lset(0);
      return;
    }
    assert Weight(v0) >= 1 && Pow(2, v1) >= 1;
    DivDiv(m, Weight(v0), Pow(2, v1));
    assert Pow(2, count) == Weight(v0) * Pow(2, v1) by {
      WeightIsPow2(v0);
      PowAdd(2, v0 * BIL, v1);
    }
    if v0 > 0 {
      LimbsDown(X, v0);
    } else {
      WeightZero();
    }
    if v1 > 0 {
      BitsDown(X, v1);
    } else {
      PowZero();
    }
    return Ok;
  }

  lemma ShiftedOut(p: seq<Limb>, v0: nat, v1: nat)
    requires v0 >= |p|
    ensures Val(p) / Pow(2, v0 * BIL + v1) == 0
  {
    ValBound(p);
    WeightMono(|p|, v0);
    WeightIsPow2(v0);
    PowMonotonic(2, v0 * BIL, v0 * BIL + v1);
    DivModUnique(Val(p), Pow(2, v0 * BIL + v1), 0, Val(p));
  }
}
