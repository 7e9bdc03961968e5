/** Montgomery arithmetic: the Newton initialiser and the interleaved multiplication. */
module Montgomery {
  import opened Arithmetic
  import opened Limbs
  import opened MpiCore
  import opened MpiAddSub
  import opened MpiMul

  // ---------- the inverse of the low limb ----------

  /** `x` inverts `m` modulo 2^k. */
  ghost predicate InvertsTo(m: int, x: int, k: nat) {
    Cong(m * x, 1, Pow(2, k))
  }

  /** `((m0 + 2) & 4) << 1`. */
  function SeedCorrection(m: int): int {
    if ((m + 2) / 4) % 2 == 1 then 8 else 0
  }

  lemma SeedTable(r: int)
    requires 0 <= r < 16 && r % 2 == 1
    ensures r * (r + SeedCorrection(r)) % 16 == 1
  {
    assert r == 1 || r == 3 || r == 5 || r == 7 || r == 9 || r == 11 || r == 13 || r == 15;
  }

  lemma CorrectionIsPeriodic(q: int, r: int)
    requires 0 <= r < 16
    ensures SeedCorrection(16 * q + r) == SeedCorrection(r)
  {
    var t := (r + 2) / 4;
    DivModUnique(16 * q + r + 2, 4, 4 * q + t, (r + 2) % 4);
    EvenPart(4 * q + t, t, 2 * q);
  }

  /** An odd number, corrected in bit 3 where needed, is its own inverse modulo 16. */
  lemma SeedIsInverse(m: int, x: int)
    requires m >= 0 && m % 2 == 1 && Cong(x, m + SeedCorrection(m), 16)
    ensures InvertsTo(m, x, 4)
  {
    var q, r := m / 16, m % 16;
    assert m == 16 * q + r && 0 <= r < 16 && r % 2 == 1;
    CorrectionIsPeriodic(q, r);
    SeedTable(r);
    hide SeedCorrection;
    var c := SeedCorrection(r);
    SeedProduct(m, r, c, x);
  }

  lemma SeedProduct(m: int, r: int, c: int, x: int)
    requires r == m % 16 && Cong(x, m + c, 16) && (r * (r + c)) % 16 == 1
    ensures InvertsTo(m, x, 4)
  {
    assert Pow(2, 4) == 16;
    hide Pow;
    CongMod(m, 16);
    CongRefl(c, 16);
    CongSameMod(r * (r + c), 1, 16);
    hide Cong;
    CongAdd(m, r, c, c, 16);
    CongTrans(x, m + c, r + c, 16);
    CongMul(m, r, x, r + c, 16);
    CongTrans(m * x, r * (r + c), 1, 16);
  }

  lemma NewtonInt(m: int, x: int, j: int, w: int)
    requires m * x == 1 + j * w
    ensures m * (x * (2 - m * x)) == 1 - (j * j) * (w * w)
  {
    var e := j * w;
    assert m * (x * (2 - m * x)) == (m * x) * (2 - m * x) by { MulAssoc(m, x, 2 - m * x); }
    assert (1 + e) * (1 - e) == 1 - e * e;
    assert e * e == (j * j) * (w * w);
  }

  /** A Newton step doubles the number of correct bits. */
  lemma NewtonStep(m: int, x: int, y: int, k: nat, total: nat)
    requires InvertsTo(m, x, k) && 2 * k <= total && Cong(y, x * (2 - m * x), Pow(2, total))
    ensures InvertsTo(m, y, 2 * k)
  {
    var w := Pow(2, k);
    var j := CongElim(m * x, 1, w);
    NewtonInt(m, x, j, w);
    assert Pow(2, 2 * k) == w * w by { PowAdd(2, k, k); }
    hide Pow, Cong;
    var z := x * (2 - m * x);
    CongCoarser(y, z, 2 * k, total);
    NewtonCong(m, y, z, w * w, j * j);
  }

  lemma NewtonCong(m: int, y: int, z: int, n: int, k: int)
    requires n > 0 && m * z == 1 - k * n && Cong(y, z, n)
    ensures Cong(m * y, 1, n)
  {
    hide Cong;
    CongIntro(m * z, 1, n, -k);
    CongRefl(m, n);
    CongMul(m, m, y, z, n);
    CongTrans(m * y, m * z, 1, n);
  }

  lemma CongCoarser(x: int, y: int, k: nat, n: nat)
    requires k <= n && Cong(x, y, Pow(2, n))
    ensures Cong(x, y, Pow(2, k))
  {
    var j := CongElim(x, y, Pow(2, n));
    var w, z := Pow(2, k), Pow(2, n - k);
    assert Pow(2, n) == w * z by { PowAdd(2, k, n - k); }
    hide Pow;
    assert j * (w * z) == (j * z) * w by { MulAssoc(j, z, w); }
    CongIntro(x, y, w, j * z);
  }

  lemma WrapsAreCongruent(x: Limb, y: Limb)
    ensures Cong(WrapAdd(x, y), x + y, BASE) && Cong(WrapSub(x, y), x - y, BASE) && Cong(WrapMul(x, y), x * y, BASE)
  {
    CongMod(x * y, BASE);
    CongIntro(WrapAdd(x, y), x + y, BASE, if x + y < BASE then 0 else -1);
    CongIntro(WrapSub(x, y), x - y, BASE, if x >= y then 0 else 1);
  }

  /** The wrapped Newton step `x * (2 - m * x)`. */
  function Newton(m: Limb, x: Limb): Limb {
    BaseFacts();
    WrapMul(x, WrapSub(2, WrapMul(m, x)))
  }

  lemma NewtonInWraps(m: int, x: int, t: int, u: int, y: int, b: int)
    requires b > 0 && Cong(t, m * x, b) && Cong(u, 2 - t, b) && Cong(y, x * u, b)
    ensures Cong(y, x * (2 - m * x), b)
  {
    var z := m * x;
    hide Cong;
    CongRefl(2, b);
    CongRefl(x, b);
    CongAdd(2, 2, t, z, b);
    CongTrans(u, 2 - t, 2 - z, b);
    CongMul(x, x, u, 2 - z, b);
    CongTrans(y, x * u, x * (2 - z), b);
  }

  lemma NewtonIsCongruent(m: Limb, x: Limb)
    ensures Cong(Newton(m, x), x * (2 - m * x), BASE)
  {
    assert 2 < BASE by { BaseFacts(); }
    var t := WrapMul(m, x);
    var u := WrapSub(2, t);
    assert Newton(m, x) == WrapMul(x, u);
    hide Newton;
    WrapsAreCongruent(m, x);
    WrapsAreCongruent(2, t);
    WrapsAreCongruent(x, u);
    hide Cong, WrapSub, WrapMul;
    NewtonInWraps(m, x, t, u, WrapMul(x, u), BASE);
  }

  lemma FirstSeed(m: Limb)
    requires m % 2 == 1
    ensures 8 < BASE && InvertsTo(m, WrapAdd(m, SeedCorrection(m)), 4)
  {
    BaseFacts();
    var c: Limb := SeedCorrection(m);
    WrapsAreCongruent(m, c);
    CongCoarser(WrapAdd(m, c), m + c, 4, BIL);
    assert Pow(2, 4) == 16;
    SeedIsInverse(m, WrapAdd(m, c));
  }

  /** `-1 / N` modulo the base, as the two's complement of the inverse. */
  method MontgInit(N: Mpi) returns (mm: Limb)
    requires |N.p| > 0 && N.p[0] % 2 == 1
    ensures Cong(N.p[0] * mm, -1, BASE)
  {
    BaseFacts();
    var m0 := N.p[0];
    FirstSeed(m0);
    var x := WrapAdd(m0, SeedCorrection(m0));
    var i := BIL;
    ghost var k: nat := 4;
    hide InvertsTo, Newton, Pow, Cong;
    while i >= 8
      invariant InvertsTo(m0, x, k)
      invariant i >= 4 && (i, k) in {(BIL, 4), (BIL / 2, 8), (BIL / 4, 16), (BIL / 8, 32), (BIL / 16, 64)}
      decreases i
    {
      NewtonIsCongruent(m0, x);
      NewtonStep(m0, x, Newton(m0, x), k, BIL);
      x := Newton(m0, x);
      i, k := i / 2, 2 * k;
    }
    mm := WrapSub(0, x);
    NegatedInverse(m0, x);
  }

  lemma NegatedInverse(m: Limb, x: Limb)
    requires InvertsTo(m, x, BIL)
    ensures 0 < BASE && Cong(m * WrapSub(0, x), -1, BASE)
  {
    BaseFacts();
    var y := WrapSub(0, x);
    WrapsAreCongruent(0, x);
    hide Cong;
    assert Cong(m * x, 1, BASE);
    CongRefl(m, BASE);
    CongRefl(0, BASE);
    CongMul(m, m, y, 0 - x, BASE);
    CongAdd(0, 0, m * x, 1, BASE);
    assert m * (0 - x) == 0 - m * x;
    CongTrans(m * y, 0 - m * x, 0 - 1, BASE);
  }

  // ---------- multiplication ----------

  /** `mm` is the negated inverse of the low limb of N. */
  ghost predicate MontgConst(N: Mpi, mm: Limb)
    reads N
  {
    |N.p| > 0 && N.p[0] % 2 == 1 && Cong(N.p[0] * mm, -1, BASE)
  }

  /** The multiplier `(d[0] + u0 * B[0]) * mm` that clears the low limb. */
  function Clearing(d0: Limb, u0: Limb, b0: Limb, mm: Limb): Limb {
    WrapMul(WrapAdd(d0, WrapMul(u0, b0)), mm)
  }

  lemma ClearingInt(d0: int, ub: int, s: int, u1: int, n0: int, mm: int, b: int)
    requires b > 0 && Cong(s, d0 + ub, b) && Cong(u1, s * mm, b) && Cong(n0 * mm, -1, b)
    ensures Cong(d0 + ub + u1 * n0, 0, b)
  {
    hide Cong;
    CongRefl(n0, b);
    CongRefl(s, b);
    CongMul(u1, s * mm, n0, n0, b);
    CongMul(s, s, n0 * mm, -1, b);
    assert (s * mm) * n0 == s * (n0 * mm);
    CongTrans(u1 * n0, s * (n0 * mm), s * -1, b);
    CongRefl(d0 + ub, b);
    CongAdd(d0 + ub, d0 + ub, u1 * n0, s * -1, b);
    CongAdd(d0 + ub, d0 + ub, s, d0 + ub, b);
    CongSym(s, d0 + ub, b);
    CongAdd(d0 + ub, s, s, s, b);
    CongTrans(d0 + ub + u1 * n0, d0 + ub + s * -1, 0, b);
  }

  lemma ClearingClears(d0: Limb, u0: Limb, b0: Limb, n0: Limb, mm: Limb)
    requires Cong(n0 * mm, -1, BASE)
    ensures Cong(d0 + u0 * b0 + Clearing(d0, u0, b0, mm) * n0, 0, BASE)
  {
    var t := WrapMul(u0, b0);
    var s := WrapAdd(d0, t);
    var u1 := WrapMul(s, mm);
    WrapsAreCongruent(u0, b0);
    WrapsAreCongruent(d0, t);
    WrapsAreCongruent(s, mm);
    hide Cong, WrapAdd, WrapMul;
    CongRefl(d0, BASE);
    CongAdd(d0, d0, t, u0 * b0, BASE);
    CongTrans(s, d0 + t, d0 + u0 * b0, BASE);
    ClearingInt(d0, u0 * b0, s, u1, n0, mm, BASE);
  }

  lemma LowInt(d0: int, x: int, b0: int, y: int, n0: int, z: int, u0: int, u1: int, k: int, m: int)
    requires d0 + u0 * b0 + u1 * n0 == k * m
    ensures (d0 + m * x) + (b0 + m * y) * u0 + (n0 + m * z) * u1 == (k + x + y * u0 + z * u1) * m
  {
    calc {
      (d0 + m * x) + (b0 + m * y) * u0 + (n0 + m * z) * u1;
      (d0 + u0 * b0 + u1 * n0) + (x + y * u0 + z * u1) * m;
      (k + x + y * u0 + z * u1) * m;
    }
  }

  lemma BasePositive()
    ensures BASE > 0
  {}

  /** Taking the whole operands instead of their low limbs changes nothing modulo the base. */
  lemma LowLimbsDecide(d: seq<Limb>, b: seq<Limb>, n: seq<Limb>, u0: Limb, u1: Limb)
    requires |d| > 0 && |b| > 0 && |n| > 0
    requires Cong(d[0] + u0 * b[0] + u1 * n[0], 0, BASE)
    ensures Cong(Val(d) + Val(b) * u0 + Val(n) * u1, 0, BASE)
  {
    hide *;
    BasePositive();
    ValLow(d);
    ValLow(b);
    ValLow(n);
    var x, y, z := Val(d[1..]), Val(b[1..]), Val(n[1..]);
    var k := CongElim(d[0] + u0 * b[0] + u1 * n[0], 0, BASE);
    LowInt(d[0], x, b[0], y, n[0], z, u0, u1, k, BASE);
    CongIntro(Val(d) + Val(b) * u0 + Val(n) * u1, 0, BASE, k + x + y * u0 + z * u1);
  }

  /** The window loses its cleared low limb. */
  lemma WindowDrops(d: seq<Limb>, v: int)
    requires |d| > 0 && Val(d) == v && Cong(v, 0, BASE)
    ensures d[0] == 0 && v == BASE * Val(d[1..])
  {
    ValLow(d);
    CongSameMod(v, 0, BASE);
    DivModUnique(0, BASE, 0, 0);
  }

  /** The accumulator stays below B + N, so below twice the modulus. */
  lemma AccumulatorBound(acc: int, acc': int, b: int, n: int, u0: int, u1: int)
    requires 0 <= acc < b + n && 0 <= b <= n && 0 <= u0 < BASE && 0 <= u1 < BASE
    requires BASE * acc' == acc + b * u0 + n * u1
    ensures acc' < b + n
    ensures acc + b * u0 <= acc + b * u0 + n * u1 < BASE * (b + n) <= BASE * (2 * n)
  {
    assert b * u0 <= b * (BASE - 1) && n * u1 <= n * (BASE - 1) && n * u1 >= 0 by {
      MulMono(b, u0, BASE - 1);
      MulMono(n, u1, BASE - 1);
      MulMono(n, 0, u1);
    }
    assert b * (BASE - 1) + n * (BASE - 1) == BASE * (b + n) - (b + n);
    MulStrict(BASE, acc', b + n);
    MulMono(BASE, b + n, 2 * n);
  }

  lemma TwiceBelow(n: nat, k: nat, m: nat)
    requires n < Weight(k) && k + 2 <= m
    ensures BASE * (2 * n) < Weight(m) && 2 * n < Weight(k + 1)
  {
    var w := Weight(k);
    assert Weight(k + 1) == BASE * w;
    assert Weight(k + 2) == BASE * Weight(k + 1);
    WeightMono(k + 2, m);
    assert BASE >= 2 by { BaseFacts(); }
    hide Weight;
    assert 2 * w <= BASE * w by { MulMono(w, 2, BASE); }
    MulLess(2 * n, BASE * w, BASE);
  }

  /** After `i` limbs the window holds `A[..i] * B / R_i` modulo N. */
  ghost predicate Accumulates(acc: int, i: nat, a: int, b: int, n: int)
    requires n > 0
  {
    Cong(acc * Weight(i), a * b, n)
  }

  lemma AccumulatesStep(acc: int, acc': int, i: nat, a: int, b: int, n: int, u0: int, u1: int)
    requires n > 0 && Accumulates(acc, i, a, b, n) && BASE * acc' == acc + b * u0 + n * u1
    ensures Accumulates(acc', i + 1, a + u0 * Weight(i), b, n)
  {
    WeightSucc(i);
    var w := Weight(i);
    hide Weight;
    var k := CongElim(acc * w, a * b, n);
    calc {
      acc' * (BASE * w);
      (BASE * acc') * w;
      (acc + b * u0 + n * u1) * w;
      acc * w + (u0 * w) * b + (u1 * w) * n;
      a * b + k * n + (u0 * w) * b + (u1 * w) * n;
      (a + u0 * w) * b + (k + u1 * w) * n;
    }
    CongIntro(acc' * (BASE * w), (a + u0 * w) * b, n, k + u1 * w);
  }

  /** The state of the accumulating loop: `i` limbs of A consumed, window at limb `i` of T. */
  ghost predicate MontState(t: seq<Limb>, i: nat, a: seq<Limb>, b: nat, n: nat, len: nat)
  {
    i <= len <= |a| && |t| >= 2 * len + 2 && n > 0
    && t[..i] == a[..i]
    && Val(t[i..]) < b + n
    && Accumulates(Val(t[i..]), i, Val(a[..i]), b, n)
  }

  lemma MontStart(t: seq<Limb>, a: seq<Limb>, b: nat, n: nat, len: nat)
    requires len <= |a| && |t| >= 2 * len + 2 && n > 0
    requires forall k :: 0 <= k < |t| ==> t[k] == 0
    ensures MontState(t, 0, a, b, n, len)
  {
    ValZero(t[0..]);
    ValZero(a[..0]);
    CongRefl(0, n);
  }

  /** Both multiples are added at limb `i`; all carries stay inside T. */
  method AddMultiples(T: Mpi, i: nat, B: Mpi, N: Mpi, u0: Limb, u1: Limb)
    requires T != B && T != N && 0 < |N.p| && B.Mag() <= N.Mag() && i < |N.p|
    requires |T.p| >= 2 * |N.p| + 2 && Val(T.p[i..]) < B.Mag() + N.Mag()
    modifies T`p
    ensures |T.p| == old(|T.p|) && T.p[..i] == old(T.p[..i])
    ensures Val(T.p[i..]) == old(Val(T.p[i..])) + B.Mag() * u0 + N.Mag() * u1
  {
    hide Val, Weight;
    var n := |N.p|;
    var m := if |B.p| < n then |B.p| else n;
    ValBound(N.p);
    if |B.p| >= n { ValHighZero(B.p, n); }
    assert |B.p| < n ==> B.p[..m] == B.p;
    assert N.p[..n] == N.p;
    TwiceBelow(N.Mag(), n, |T.p| - i);
    BoundAhead(Val(T.p[i..]), B.Mag(), N.Mag(), u0, u1);
    MulHelper(m, B.p, T, i, u0);
    MulHelper(n, N.p, T, i, u1);
  }

  /** The window moves up one limb, over the limb that was cleared. */
  lemma MontAdvance(t: seq<Limb>, i: nat, a: seq<Limb>, b: nat, n: nat, len: nat, u0: Limb, u1: Limb, t1: seq<Limb>,
          t2: seq<Limb>)
    requires MontState(t, i, a, b, n, len) && i < len && b <= n && u0 == a[i] && n < Weight(len)
    requires |t1| == |t2| == |t| && t1[..i] == t[..i]
    requires Val(t1[i..]) == Val(t[i..]) + b * u0 + n * u1 && Cong(Val(t1[i..]), 0, BASE)
    requires t2[..i] == t1[..i] && t2[i] == u0
    requires forall k :: i < k < |t2| ==> t2[k] == if k == i + len + 2 then 0 else t1[k]
    ensures MontState(t2, i + 1, a, b, n, len)
  {
    hide Val, Weight, Accumulates, Cong;
    var acc, acc' := Val(t[i..]), Val(t1[i + 1..]);
    WindowDrops(t1[i..], acc + b * u0 + n * u1);
    assert t1[i..][1..] == t1[i + 1..];
    AccumulatorBound(acc, acc', b, n, u0, u1);
    AccumulatesStep(acc, acc', i, Val(a[..i]), b, n, u0, u1);
    ValPrefix(a, i);
    TwiceBelow(n, len, |t|);
    ValHighZero(t1[i + 1..], len + 1);
    assert t1[i + len + 2] == t1[i + 1..][len + 1];
    assert t2[i + 1..] == t1[i + 1..];
    assert t2[..i + 1] == a[..i + 1];
  }

  /** One limb of A: add the two multiples, drop the cleared limb, keep the limb of A in its place. */
  method MontStep(T: Mpi, a: seq<Limb>, i: nat, B: Mpi, N: Mpi, mm: Limb)
    requires T != B && T != N && MontgConst(N, mm) && |B.p| > 0 && B.Mag() <= N.Mag()
    requires i < |N.p| <= |a|
    requires MontState(T.p, i, a, B.Mag(), N.Mag(), |N.p|)
    modifies T`p
    ensures |T.p| == old(|T.p|)
    ensures MontState(T.p, i + 1, a, B.Mag(), N.Mag(), |N.p|)
  {
    hide Val, Weight, Accumulates, Clearing, Cong;
    ghost var t := T.p;
    var u0 := a[i];
    var u1 := Clearing(T.p[i], u0, B.p[0], mm);
    ClearingClears(T.p[i], u0, B.p[0], N.p[0], mm);
    LowLimbsDecide(T.p[i..], B.p, N.p, u0, u1);
    AddMultiples(T, i, B, N, u0, u1);
    ghost var t1 := T.p;
    BaseFacts();
    ValBound(N.p);
    T.p := T.p[i := u0];
    T.p := T.p[i + 1 + |N.p| + 1 := 0];
    MontAdvance(t, i, a, B.Mag(), N.Mag(), |N.p|, u0, u1, t1, T.p);
  }

  lemma BoundAhead(acc: int, b: int, n: int, u0: int, u1: int)
    requires 0 <= acc < b + n && 0 <= b <= n && 0 <= u0 < BASE && 0 <= u1 < BASE
    ensures 0 <= acc + b * u0 <= acc + b * u0 + n * u1 < BASE * (2 * n)
  {
    MulMono(b, u0, BASE - 1);
    MulMono(b, 0, u0);
    MulMono(n, u1, BASE - 1);
    MulMono(n, 0, u1);
    assert b * (BASE - 1) + n * (BASE - 1) == BASE * (b + n) - (b + n);
    MulMono(BASE, b + n, 2 * n);
  }

  /** The result of a Montgomery product: below N, and `r * R == a * b` modulo N. */
  ghost predicate IsMontProduct(r: int, a: int, b: int, n: int, len: nat)
    requires n > 0
  {
    0 <= r < n && Cong(r * Weight(len), a * b, n)
  }

  lemma ReduceOnce(acc: int, i: nat, a: int, b: int, n: int)
    requires n > 0 && Accumulates(acc, i, a, b, n)
    ensures Accumulates(acc - n, i, a, b, n)
  {
    var w := Weight(i);
    hide Weight;
    var k := CongElim(acc * w, a * b, n);
    Distribute(w, acc, n);
    CongIntro((acc - n) * w, a * b, n, k - w);
  }

  /** The scratch area, read as one number, is at least the result: the dummy subtraction always ends inside it. */
  lemma ScratchCovers(t: seq<Limb>, len: nat, r: nat)
    requires len <= |t| && r == Val(t[len..])
    ensures r <= Val(t)
  {
    hide Val, Weight;
    ValSplit(t, len);
    assert Weight(len) >= 1;
    MulMono(r, 1, Weight(len));
  }

  /** What copying the window into A leaves there. */
  lemma CopyWindow(a: seq<Limb>, t: seq<Limb>, len: nat)
    requires len + 1 <= |a| && 2 * len + 1 <= |t| && Val(a) < Weight(len) && Val(t[len..]) < Weight(len + 1)
    ensures Val(t[len..2 * len + 1] + a[len + 1..]) == Val(t[len..])
    ensures Val(a[..len]) == Val(a)
  {
    hide Val, Weight;
    ValHighZero(a, len);
    ValHighZero(t[len..], len + 1);
    assert t[len..][..len + 1] == t[len..2 * len + 1];
    ValTrim(t[len..2 * len + 1] + a[len + 1..], len + 1);
    assert (t[len..2 * len + 1] + a[len + 1..])[..len + 1] == t[len..2 * len + 1];
  }

  /** The loop over the limbs of A, from a cleared scratch area. */
  method MontAccumulate(T: Mpi, a: seq<Limb>, B: Mpi, N: Mpi, mm: Limb)
    requires T != B && T != N && MontgConst(N, mm) && |B.p| > 0 && B.Mag() <= N.Mag()
    requires |N.p| <= |a| && |T.p| >= 2 * |N.p| + 2 && Val(a) < Weight(|N.p|)
    modifies T`p
    ensures |T.p| == old(|T.p|) && N.Mag() > 0
    ensures Accumulates(Val(T.p[|N.p|..]), |N.p|, Val(a), B.Mag(), N.Mag())
    ensures Val(T.p[|N.p|..]) < B.Mag() + N.Mag() && Val(T.p[|N.p|..]) < Weight(|N.p| + 1)
  {
    ghost var b, nv := B.Mag(), N.Mag();
    OddIsPositive(N);
    hide Val, Weight, Cong, Pow, Accumulates, MontState;
    var n := |N.p|;
    T.p := Zeros(|T.p|);
    MontStart(T.p, a, b, nv, n);
    var i := 0;
    while i < n
      invariant 0 <= i <= n && |T.p| == old(|T.p|)
      invariant MontState(T.p, i, a, b, nv, n)
    {
      MontStep(T, a, i, B, N, mm);
      i := i + 1;
    }
    ValBound(N.p);
    MontDone(T.p, a, Val(a), b, nv, n);
  }

  /** The last subtraction, from the result or, when there is nothing to subtract, from the scratch area. */
  method MontReduce(A: Mpi, N: Mpi, T: Mpi, ghost a: nat, ghost b: nat)
    requires T != A && T != N && A != N && N.Mag() > 0 && |N.p| < |A.p| && |T.p| >= 2 * |N.p| + 2
    requires b <= N.Mag() && A.Mag() < b + N.Mag() && A.Mag() == Val(T.p[|N.p|..])
    requires Accumulates(A.Mag(), |N.p|, a, b, N.Mag())
    modifies A`p, T`p
    ensures |A.p| == old(|A.p|) && |T.p| == old(|T.p|)
    ensures IsMontProduct(A.Mag(), a, b, N.Mag(), |N.p|)
  {
    ghost var acc, nv := A.Mag(), N.Mag();
    hide Val, Weight, Accumulates;
    var n := |N.p|;
    var cmp := CmpAbs(A, N);
    assert N.p[..n] == N.p;
    if cmp >= 0 {
      ReduceOnce(acc, n, a, b, nv);
      SubHelper(n, N.p, A);
    } else {
      ScratchCovers(T.p, n, acc);
      ValBound(N.p);
      ValHighZero(A.p, n);
      SubHelper(n, A.p, T);
    }
    MontResult(A.Mag(), a, b, nv, n);
  }

  /** A = A * B / R mod N. B may be A itself. */
  method MontMul(A: Mpi, B: Mpi, N: Mpi, mm: Limb, T: Mpi) returns (st: Status)
    requires T != A && T != B && T != N && A != N
    requires MontgConst(N, mm) && |A.p| >= |N.p| + 1 && |B.p| > 0
    requires A.Mag() < Weight(|N.p|) && B.Mag() <= N.Mag()
    requires |T.p| <= |N.p| || |T.p| >= 2 * |N.p| + 2
    modifies A`p, T`p
    ensures |A.p| == old(|A.p|) && |T.p| == old(|T.p|)
    ensures st == if |T.p| <= |N.p| then BadInput else Ok
    ensures st == Ok ==> N.Mag() > 0 && IsMontProduct(A.Mag(), old(A.Mag()), old(B.Mag()), N.Mag(), |N.p|)
  {
    if |T.p| < |N.p| + 1 {
      return BadInput;
    }
    ghost var a, b := A.Mag(), B.Mag();
    hide Val, Weight, Cong, Pow, Accumulates;
    var n := |N.p|;
    MontAccumulate(T, A.p, B, N, mm);
    CopyWindow(A.p, T.p, n);
    A.p := T.p[n..2 * n + 1] + A.p[n + 1..];
    MontReduce(A, N, T, a, b);
    return Ok;
  }

  lemma OddIsPositive(N: Mpi)
    requires |N.p| > 0 && N.p[0] % 2 == 1
    ensures N.Mag() > 0
  {
    ValLow(N.p);
  }

  lemma MontDone(t: seq<Limb>, a: seq<Limb>, a0: nat, b: nat, n: nat, len: nat)
    requires MontState(t, len, a, b, n, len) && Val(a) == a0 < Weight(len) && n < Weight(len) && b <= n
    ensures Accumulates(Val(t[len..]), len, a0, b, n) && Val(t[len..]) < b + n && Val(t[len..]) < Weight(len + 1)
  {
    hide Val, Weight, Accumulates;
    ValHighZero(a, len);
    TwiceBelow(n, len, len + 2);
  }

  lemma MontResult(r: int, a: int, b: int, n: int, len: nat)
    requires n > 0 && 0 <= r < n && Accumulates(r, len, a, b, n)
    ensures IsMontProduct(r, a, b, n, len)
  {}

  /** A = A / R mod N: a Montgomery product with the one-limb number 1. */
  method MontRed(A: Mpi, N: Mpi, mm: Limb, T: Mpi) returns (st: Status)
    requires T != A && T != N && A != N
    requires MontgConst(N, mm) && |A.p| >= |N.p| + 1
    requires A.Mag() < Weight(|N.p|)
    requires |T.p| <= |N.p| || |T.p| >= 2 * |N.p| + 2
    modifies A`p, T`p
    ensures |A.p| == old(|A.p|) && |T.p| == old(|T.p|)
    ensures st == if |T.p| <= |N.p| then BadInput else Ok
    ensures st == Ok ==> N.Mag() > 0 && IsMontProduct(A.Mag(), old(A.Mag()), 1, N.Mag(), |N.p|)
  {
    BaseFacts();
    OddIsPositive(N);
    var U := new Mpi();
    U.p := [1];
    ValOne(1);
    st := MontMul(A, U, N, mm, T);
  }
}
