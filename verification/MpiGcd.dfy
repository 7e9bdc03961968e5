/** Binary greatest common divisor and modular inverse. */
module MpiGcd {
  import opened Arithmetic
  import opened NumberTheory
  import opened Limbs
  import opened MpiCore
  import opened MpiShift
  import opened MpiAddSub
  import opened MpiDiv

  // ---------- greatest common divisor ----------

  /** `v` without its `n` trailing zeros. */
  lemma OddPart(v: nat, n: nat)
    requires IsLsb(v, n)
    ensures v == (v / Pow(2, n)) * Pow(2, n) && (v / Pow(2, n)) % 2 == 1 && 0 < v / Pow(2, n) <= v
  {
    var w := Pow(2, n);
    assert v == w * (v / w) + v % w;
    MulMono(v / w, 1, w);
  }

  lemma OddHasNoZeros(v: nat, n: nat)
    requires IsLsb(v, n) && v % 2 == 1
    ensures n == 0
  {
    if n > 0 {
      var w := Pow(2, n - 1);
      assert Pow(2, n) == 2 * w;
      assert v == (2 * w) * (v / (2 * w));
      MulAssoc(2, w, v / (2 * w));
    }
  }

  /** Shifts the trailing zeros out of X; zero stays zero. */
  method StripZeros(X: Mpi) returns (st: Status, ghost k: nat)
    requires X.Value() >= 0
    modifies X
    ensures st == Ok || st == AllocFailed
    ensures st == Ok ==> X.Value() >= 0 && X.Mag() <= old(X.Mag()) && old(X.Mag()) == X.Mag() * Pow(2, k)
    ensures st == Ok ==> if old(X.Mag()) == 0 then X.Mag() == 0 else X.Mag() % 2 == 1
    ensures st == Ok && old(X.Mag()) % 2 == 1 ==> k == 0
    ensures st == Ok ==> |X.p| >= old(|X.p|)
  {
    hide Val, Weight, Pow, IsLsb;
    ghost var v := X.Mag();
    var n := Lsb(X);
    k := n;
    if v > 0 {
      OddPart(v, n);
      if v % 2 == 1 { OddHasNoZeros(v, n); }
    }
    PowZero();
    st := ShiftR(X, n);
  }

  /** Both numbers are odd once the zeros are out, and their gcd has not changed. */
  lemma GcdAfterStrip(ta: nat, tb: nat, ta': nat, tb': nat, k: nat, l: nat)
    requires ta > 0 && tb > 0 && (ta % 2 == 1 || tb % 2 == 1)
    requires ta == ta' * Pow(2, k) && tb == tb' * Pow(2, l)
    requires (ta % 2 == 1 ==> k == 0) && (tb % 2 == 1 ==> l == 0)
    ensures Gcd(ta', tb') == Gcd(ta, tb)
  {
    hide *;
    PowZero();
    if tb % 2 == 1 {
      GcdDropTwos(ta', tb, k);
    } else {
      GcdDropTwos(tb', ta, l);
      GcdComm(ta, tb);
      GcdComm(ta', tb');
    }
  }

  lemma HalfDifference(x: nat, y: nat)
    requires x % 2 == 1 && y % 2 == 1 && x >= y
    ensures (x - y) / 2 >= 0 && x - y == 2 * ((x - y) / 2)
  {}

  /** Half the difference of two odd numbers keeps their gcd. */
  lemma GcdHalfDifference(x: nat, y: nat)
    requires x % 2 == 1 && y % 2 == 1 && x >= y
    ensures (x - y) / 2 >= 0 && Gcd((x - y) / 2, y) == Gcd(x, y) == Gcd(y, (x - y) / 2) == Gcd(y, x)
  {
    hide Gcd;
    HalfDifference(x, y);
    var h := (x - y) / 2;
    GcdSubtract(x, y);
    GcdDropTwo(h, y);
    GcdComm(x, y);
    GcdComm(h, y);
  }

  lemma PowOne()
    ensures Pow(2, 1) == 2
  {}

  /** X = (|X| - |Y|) / 2. */
  method SubtractHalf(X: Mpi, Y: Mpi) returns (st: Status)
    requires X != Y && Y.Mag() <= X.Mag()
    modifies X
    ensures st == Ok || st == AllocFailed
    ensures st == Ok ==> X.Value() == X.Mag() == (old(X.Mag()) - Y.Mag()) / 2
  {
    hide Val, Weight, Pow;
    PowOne();
    st := SubAbs(X, X, Y);
    if st != Ok { return; }
    st := ShiftR(X, 1);
  }

  /** The pair is on its way to its gcd: one of the two is odd, unless the second is zero for good. */
  ghost predicate GcdState(ta: nat, tb: nat) {
    tb == 0 || ta == 0 || ta % 2 == 1 || tb % 2 == 1
  }

  /** One round: zeros out, then the larger becomes half the difference. */
  method GcdRound(TA: Mpi, TB: Mpi) returns (st: Status)
    requires TA != TB && TA.Value() > 0 && TB.Value() >= 0 && GcdState(TA.Mag(), TB.Mag())
    modifies TA, TB
    ensures st == Ok || st == AllocFailed
    ensures st == Ok ==> TA.Value() >= 0 && TB.Value() >= 0 && GcdState(TA.Mag(), TB.Mag())
    ensures st == Ok && old(TB.Mag()) == 0 ==> TB.Mag() == 0
    ensures st == Ok && old(TB.Mag()) > 0 ==> TB.Mag() > 0 && Gcd(TA.Mag(), TB.Mag()) == old(Gcd(TA.Mag(), TB.Mag()))
    ensures st == Ok ==> TA.Mag() + TB.Mag() < old(TA.Mag() + TB.Mag())
  {
    hide Val, Weight, Pow, Gcd;
    ghost var a, b, k, l := TA.Mag(), TB.Mag(), 0, 0;
    st, k := StripZeros(TA);
    if st != Ok { return; }
    st, l := StripZeros(TB);
    if st != Ok { return; }
    ghost var x, y := TA.Mag(), TB.Mag();
    if b > 0 { GcdAfterStrip(a, b, x, y, k, l); }
    var cmp := CmpMpi(TA, TB);
    if cmp >= 0 {
      if b > 0 { GcdHalfDifference(x, y); }
      st := SubtractHalf(TA, TB);
    } else {
      GcdHalfDifference(y, x);
      HalfDifference(y, x);
      st := SubtractHalf(TB, TA);
    }
  }

  /** What the function computes: the gcd, but 0 when the second operand is 0. */
  ghost function GcdResult(a: nat, b: nat): nat {
    if b == 0 then 0 else Gcd(a, b)
  }

  /** The result is the greatest common divisor exactly when the second operand is not zero, or both are. */
  lemma GcdResultIsGcd(a: nat, b: nat)
    ensures GcdResult(a, b) == Gcd(a, b) <==> b != 0 || a == 0
  {}

  lemma MinZeros(v: nat, n: nat, m: nat)
    requires v > 0 && IsLsb(v, n) && m <= n
    ensures v == (v / Pow(2, m)) * Pow(2, m) && (m == n ==> (v / Pow(2, m)) % 2 == 1)
  {
    OddPart(v, n);
    if m < n {
      var w, z, q := Pow(2, m), Pow(2, n - m), v / Pow(2, n);
      assert Pow(2, n) == z * w by { PowAdd(2, n - m, m); }
      assert w >= 1;
      hide Pow, IsLsb;
      assert q * (z * w) == (q * z) * w by { MulAssoc(q, z, w); }
      DivModUnique(v, w, q * z, 0);
    }
  }

  /** Taking the common power of two out of both numbers. */
  lemma GcdCommonTwos(a: nat, b: nat, n: nat, m: nat, lz: nat)
    requires a > 0 && b > 0 && IsLsb(a, n) && IsLsb(b, m) && lz == (if m < n then m else n)
    ensures GcdState(Shifted(a, lz), Shifted(b, lz)) && Shifted(b, lz) > 0
    ensures Gcd(a, b) == Gcd(Shifted(a, lz), Shifted(b, lz)) * Pow(2, lz)
  {
    MinZeros(a, n, lz);
    MinZeros(b, m, lz);
    GcdScale(Shifted(a, lz), Shifted(b, lz), Pow(2, lz));
  }

  /** Copies of both magnitudes without the power of two they share. */
  method GcdPrepare(A: Mpi, B: Mpi) returns (st: Status, TA: Mpi, TB: Mpi, lz: nat)
    ensures fresh(TA) && fresh(TB) && TA != TB && (st == Ok || st == AllocFailed)
    ensures st == Ok ==> TA.Value() >= 0 && TB.Value() >= 0 && GcdState(TA.Mag(), TB.Mag())
    ensures st == Ok ==> if B.Mag() == 0 then TB.Mag() == 0
                         else TB.Mag() > 0 && Gcd(A.Mag(), B.Mag()) == Gcd(TA.Mag(), TB.Mag()) * Pow(2, lz)
  {
    hide Val, Weight, Pow, IsLsb, Gcd, GcdState;
    lz := 0;
    TA := new Mpi();
    TB := new Mpi();
    st := TA.Copy(A);
    if st != Ok { return; }
    st := TB.Copy(B);
    if st != Ok { return; }
    lz := Lsb(TA);
    var lzt := Lsb(TB);
    GcdPrepared(TA.Mag(), TB.Mag(), lz, lzt, if lzt < lz then lzt else lz);
    if lzt < lz {
      lz := lzt;
    }
    st := ShiftR(TA, lz);
    if st != Ok { return; }
    st := ShiftR(TB, lz);
    if st != Ok { return; }
    TA.s, TB.s := 1, 1;
  }

  /** G = gcd(A, B). */
  method GcdMpi(G: Mpi, A: Mpi, B: Mpi) returns (st: Status)
    modifies G
    ensures st == Ok || st == AllocFailed
    ensures st == Ok ==> G.Value() == GcdResult(old(A.Mag()), old(B.Mag()))
  {
    hide Val, Weight, Pow, Gcd, GcdState, IsBitLen;
    ghost var a, b := A.Mag(), B.Mag();
    var TA, TB, lz;
    st, TA, TB, lz := GcdPrepare(A, B);
    if st != Ok { return; }
    var cmp := CmpIntZero(TA);
    while cmp != 0
      invariant TA.Value() >= 0 && TB.Value() >= 0 && cmp == Sgn(TA.Value())
      invariant GcdState(TA.Mag(), TB.Mag())
      invariant if b == 0 then TB.Mag() == 0 else TB.Mag() > 0 && Gcd(a, b) == Gcd(TA.Mag(), TB.Mag()) * Pow(2, lz)
      decreases TA.Mag() + TB.Mag()
    {
      st := GcdRound(TA, TB);
      if st != Ok { return; }
      cmp := CmpIntZero(TA);
    }
    GcdZero(TB.Mag());
    BitLenExists(TB.Mag());
    st := ShiftL(TB, lz);
    if st != Ok { return; }
    st := G.Copy(TB);
  }

  method CmpIntZero(X: Mpi) returns (r: int)
    ensures r == Sgn(X.Value())
  {
    BaseFacts();
    r := CmpInt(X, 0);
  }

  /** A number shifted right. */
  ghost function Shifted(a: nat, k: nat): nat {
    QuotientBound(a, Pow(2, k));
    a / Pow(2, k)
  }

  lemma GcdPrepared(a: nat, b: nat, n: nat, m: nat, lz: nat)
    requires (a == 0 ==> n == 0) && (a != 0 ==> IsLsb(a, n)) && (b == 0 ==> m == 0) && (b != 0 ==> IsLsb(b, m))
    requires lz == if m < n then m else n
    ensures GcdState(Shifted(a, lz), Shifted(b, lz))
    ensures if b == 0 then Shifted(b, lz) == 0
            else Shifted(b, lz) > 0 && Gcd(a, b) == Gcd(Shifted(a, lz), Shifted(b, lz)) * Pow(2, lz)
  {
    if a > 0 && b > 0 {
      GcdCommonTwos(a, b, n, m, lz);
    } else {
      assert lz == 0;
      PowZero();
    }
  }

  // ---------- modular inverse ----------

  /** A Bezout row: `u1 * ta + u2 * tb == tu`. */
  ghost predicate Bezout(u1: int, u2: int, ta: int, tb: int, tu: int) {
    u1 * ta + u2 * tb == tu
  }

  lemma ParityOfProduct(u: int, t: int)
    ensures (u * t) % 2 == if u % 2 == 1 && t % 2 == 1 then 1 else 0
  {
    var x, y := u / 2, t / 2;
    if u % 2 == 0 {
      assert u == 2 * x;
      MulAssoc(2, x, t);
      DoubleIsEven(u * t, x * t);
    } else if t % 2 == 0 {
      assert t == 2 * y;
      MulAssoc(u, 2, y);
      DoubleIsEven(u * t, u * y);
    } else {
      assert u == 2 * x + 1 && t == 2 * y + 1;
      assert (2 * x + 1) * (2 * y + 1) == 1 + 2 * (2 * (x * y) + x + y);
      EvenPart(u * t, 1, 2 * (x * y) + x + y);
    }
  }

  lemma ParityOfSum(u1: int, u2: int, ta: int, tb: int)
    requires (u1 * ta + u2 * tb) % 2 == 0 && (ta % 2 == 1 || tb % 2 == 1) && (u1 % 2 == 1 || u2 % 2 == 1)
    ensures (u1 + tb) % 2 == 0 && (u2 - ta) % 2 == 0
  {
    ParityOfProduct(u1, ta);
    ParityOfProduct(u2, tb);
    ParityCases(u1, u2, ta, tb, u1 * ta, u2 * tb);
  }

  lemma ParityCases(u1: int, u2: int, ta: int, tb: int, p: int, q: int)
    requires (p + q) % 2 == 0 && (ta % 2 == 1 || tb % 2 == 1) && (u1 % 2 == 1 || u2 % 2 == 1)
    requires p % 2 == if u1 % 2 == 1 && ta % 2 == 1 then 1 else 0
    requires q % 2 == if u2 % 2 == 1 && tb % 2 == 1 then 1 else 0
    ensures (u1 + tb) % 2 == 0 && (u2 - ta) % 2 == 0
  {}

  lemma BezoutShift(u1: int, u2: int, ta: int, tb: int, tu: int)
    requires Bezout(u1, u2, ta, tb, tu)
    ensures Bezout(u1 + tb, u2 - ta, ta, tb, tu)
  {}

  lemma BezoutHalf(u1: int, u2: int, ta: int, tb: int, tu: int)
    requires Bezout(2 * u1, 2 * u2, ta, tb, 2 * tu)
    ensures Bezout(u1, u2, ta, tb, tu)
  {}

  lemma BezoutSubtract(u1: int, u2: int, v1: int, v2: int, ta: int, tb: int, tu: int, tv: int)
    requires Bezout(u1, u2, ta, tb, tu) && Bezout(v1, v2, ta, tb, tv)
    ensures Bezout(u1 - v1, u2 - v2, ta, tb, tu - tv)
  {}

  /** An exact halving, of either sign. */
  method HalveExact(U: Mpi) returns (st: Status)
    requires U.Mag() % 2 == 0
    modifies U
    ensures st == Ok || st == AllocFailed
    ensures st == Ok ==> 2 * U.Value() == old(U.Value()) && |U.p| >= old(|U.p|)
  {
    hide Val, Pow;
    PowOne();
    st := ShiftR(U, 1);
  }

  /** Whether the low bit of a number with at least one limb is set. */
  method IsOdd(U: Mpi) returns (odd: bool)
    requires |U.p| > 0
    ensures odd <==> U.Mag() % 2 == 1
    ensures odd <==> U.Value() % 2 == 1
  {
    hide Val;
    ValParity(U.p);
    odd := U.p[0] % 2 != 0;
  }

  ghost predicate Apart(U: Mpi, U1: Mpi, U2: Mpi, TA: Mpi, TB: Mpi) {
    U != U1 && U != U2 && U != TA && U != TB && U1 != U2 && U1 != TA && U1 != TB && U2 != TA && U2 != TB
  }

  /** A row of the extended algorithm held in three numbers. */
  ghost predicate Row(U: Mpi, U1: Mpi, U2: Mpi, TA: Mpi, TB: Mpi)
    reads U, U1, U2, TA, TB
  {
    |U.p| > 0 && |U1.p| > 0 && |U2.p| > 0 && |TA.p| > 0 && |TB.p| > 0
    && Bezout(U1.Value(), U2.Value(), TA.Value(), TB.Value(), U.Value())
  }

  /** Makes both coefficients even, without changing the combination. */
  method EvenCoefficients(U1: Mpi, U2: Mpi, TA: Mpi, TB: Mpi, ghost tu: int) returns (st: Status)
    requires U1 != U2 && U1 != TA && U1 != TB && U2 != TA && U2 != TB
    requires |U1.p| > 0 && |U2.p| > 0 && |TA.p| > 0 && |TB.p| > 0
    requires tu % 2 == 0 && Bezout(U1.Value(), U2.Value(), TA.Value(), TB.Value(), tu)
    requires TA.Value() % 2 == 1 || TB.Value() % 2 == 1
    modifies U1, U2
    ensures st == Ok || st == AllocFailed
    ensures st == Ok ==> U1.Mag() % 2 == 0 && U2.Mag() % 2 == 0 && |U1.p| > 0 && |U2.p| > 0
    ensures st == Ok ==> Bezout(U1.Value(), U2.Value(), TA.Value(), TB.Value(), tu)
  {
    hide Val, Weight;
    ghost var u1, u2, ta, tb := U1.Value(), U2.Value(), TA.Value(), TB.Value();
    var odd1 := IsOdd(U1);
    var odd2 := IsOdd(U2);
    st := Ok;
    if odd1 || odd2 {
      ParityOfSum(u1, u2, ta, tb);
      BezoutShift(u1, u2, ta, tb, tu);
      st := AddMpi(U1, U1, TB);
      if st != Ok { return; }
      st := SubMpi(U2, U2, TA);
      if st != Ok { return; }
      MagParity(U1);
      MagParity(U2);
    }
  }

  lemma MagParity(U: Mpi)
    ensures U.Mag() % 2 == U.Value() % 2
  {}

  /** One halving of a row whose number is even. */
  method HalveRow(U: Mpi, U1: Mpi, U2: Mpi, TA: Mpi, TB: Mpi) returns (st: Status)
    requires Apart(U, U1, U2, TA, TB) && Row(U, U1, U2, TA, TB) && U.Value() > 0 && U.Mag() % 2 == 0
    requires TA.Value() % 2 == 1 || TB.Value() % 2 == 1
    modifies U, U1, U2
    ensures st == Ok || st == AllocFailed
    ensures st == Ok ==> Row(U, U1, U2, TA, TB) && 2 * U.Value() == old(U.Value())
  {
    ghost var tu := U.Value();
    MagParity(U);
    hide Val, Weight, Bezout;
    st := HalveExact(U);
    if st != Ok { return; }
    st := EvenCoefficients(U1, U2, TA, TB, tu);
    if st != Ok { return; }
    st := HalveExact(U1);
    if st != Ok { return; }
    st := HalveExact(U2);
    if st != Ok { return; }
    BezoutHalf(U1.Value(), U2.Value(), TA.Value(), TB.Value(), U.Value());
  }

  /** Halves a row until its number is odd; the number stays coprime to `other`. */
  method StripRow(U: Mpi, U1: Mpi, U2: Mpi, TA: Mpi, TB: Mpi, ghost other: nat) returns (st: Status)
    requires Apart(U, U1, U2, TA, TB) && Row(U, U1, U2, TA, TB) && U.Value() > 0
    requires TA.Value() % 2 == 1 || TB.Value() % 2 == 1
    requires Gcd(U.Mag(), other) == 1
    modifies U, U1, U2
    ensures st == Ok || st == AllocFailed
    ensures st == Ok ==> Row(U, U1, U2, TA, TB) && 0 < U.Value() <= old(U.Value()) && U.Value() % 2 == 1
    ensures st == Ok ==> Gcd(U.Mag(), other) == 1
  {
    hide Val, Weight, Gcd, Row;
    RowLength(U, U1, U2, TA, TB);
    var odd := IsOdd(U);
    while !odd
      invariant Row(U, U1, U2, TA, TB) && 0 < U.Value() <= old(U.Value()) && Gcd(U.Mag(), other) == 1
      invariant odd <==> U.Mag() % 2 == 1
      decreases U.Value()
    {
      ghost var u := U.Mag();
      st := HalveRow(U, U1, U2, TA, TB);
      if st != Ok { return; }
      assert u == 2 * U.Mag();
      CoprimeHalf(U.Mag(), other);
      RowLength(U, U1, U2, TA, TB);
      odd := IsOdd(U);
    }
    MagParity(U);
    st := Ok;
  }

  lemma RowLength(U: Mpi, U1: Mpi, U2: Mpi, TA: Mpi, TB: Mpi)
    requires Row(U, U1, U2, TA, TB)
    ensures |U.p| > 0
  {}

  /** Subtracts one row from another. */
  method SubtractRow(U: Mpi, U1: Mpi, U2: Mpi, V: Mpi, V1: Mpi, V2: Mpi, ghost ta: int, ghost tb: int)
    returns (st: Status)
    requires U != U1 && U != U2 && U1 != U2 && U !in {V, V1, V2} && U1 !in {V, V1, V2} && U2 !in {V, V1, V2}
    requires |U.p| > 0 && |U1.p| > 0 && |U2.p| > 0 && |V.p| > 0 && |V1.p| > 0 && |V2.p| > 0
    requires Bezout(U1.Value(), U2.Value(), ta, tb, U.Value()) && Bezout(V1.Value(), V2.Value(), ta, tb, V.Value())
    modifies U, U1, U2
    ensures st == Ok || st == AllocFailed
    ensures st == Ok ==> U.Value() == old(U.Value()) - V.Value() && |U.p| > 0 && |U1.p| > 0 && |U2.p| > 0
    ensures st == Ok ==> Bezout(U1.Value(), U2.Value(), ta, tb, U.Value())
  {
    BezoutSubtract(U1.Value(), U2.Value(), V1.Value(), V2.Value(), ta, tb, U.Value(), V.Value());
    hide Val, Weight, Bezout;
    st := SubMpi(U, U, V);
    if st != Ok { return; }
    st := SubMpi(U1, U1, V1);
    if st != Ok { return; }
    st := SubMpi(U2, U2, V2);
  }

  /** The nine numbers of the inversion that must not be the same object. */
  ghost predicate InvApart(TU: Mpi, U1: Mpi, U2: Mpi, TV: Mpi, V1: Mpi, V2: Mpi, TA: Mpi, TB: Mpi) {
    Apart(TU, U1, U2, TA, TB) && Apart(TV, V1, V2, TA, TB)
    && TU !in {TV, V1, V2} && U1 !in {TV, V1, V2} && U2 !in {TV, V1, V2}
  }

  lemma CoprimeDifference(u: nat, v: nat)
    requires Gcd(u, v) == 1 && u >= v
    ensures Gcd(u - v, v) == 1 && Gcd(v, u - v) == 1
  {
    GcdSubtract(u, v);
    GcdComm(u - v, v);
  }

  /** One round: both numbers made odd, then the smaller row subtracted from the larger. */
  method InvRound(TU: Mpi, U1: Mpi, U2: Mpi, TV: Mpi, V1: Mpi, V2: Mpi, TA: Mpi, TB: Mpi) returns (st: Status)
    requires InvApart(TU, U1, U2, TV, V1, V2, TA, TB)
    requires Row(TU, U1, U2, TA, TB) && Row(TV, V1, V2, TA, TB)
    requires TA.Value() % 2 == 1 || TB.Value() % 2 == 1
    requires TU.Value() > 0 && TV.Value() > 0 && Gcd(TU.Mag(), TV.Mag()) == 1
    modifies TU, U1, U2, TV, V1, V2
    ensures st == Ok || st == AllocFailed
    ensures st == Ok ==> Row(TU, U1, U2, TA, TB) && Row(TV, V1, V2, TA, TB)
    ensures st == Ok ==> TU.Value() >= 0 && TV.Value() > 0 && Gcd(TU.Mag(), TV.Mag()) == 1
    ensures st == Ok ==> TU.Value() + TV.Value() < old(TU.Value() + TV.Value())
    ensures st == Ok ==> (TU.Value() + TV.Value()) % 2 == 1
  {
    hide Val, Weight, Gcd, Bezout;
    st := StripRow(TU, U1, U2, TA, TB, TV.Mag());
    if st != Ok { return; }
    GcdComm(TU.Mag(), TV.Mag());
    st := StripRow(TV, V1, V2, TA, TB, TU.Mag());
    if st != Ok { return; }
    GcdComm(TU.Mag(), TV.Mag());
    ghost var u, v := TU.Mag(), TV.Mag();
    var cmp := CmpMpi(TU, TV);
    if cmp >= 0 {
      CoprimeDifference(u, v);
      st := SubtractRow(TU, U1, U2, TV, V1, V2, TA.Value(), TB.Value());
    } else {
      CoprimeDifference(v, u);
      st := SubtractRow(TV, V1, V2, TU, U1, U2, TA.Value(), TB.Value());
    }
  }

  lemma BezoutInverse(v1: int, v2: int, ta: int, n: nat, a: int)
    requires n > 0 && Bezout(v1, v2, ta, n, 1) && ta == a % n
    ensures Cong(a * v1, 1, n)
  {
    CongMod(a, n);
    CongRefl(v1, n);
    CongMul(a, ta, v1, v1, n);
    CongIntro(ta * v1, 1, n, -v2);
    CongTrans(a * v1, ta * v1, 1, n);
  }

  /** The extended algorithm proper, for coprime TA and TB. */
  method InvLoop(TU: Mpi, U1: Mpi, U2: Mpi, TV: Mpi, V1: Mpi, V2: Mpi, TA: Mpi, TB: Mpi) returns (st: Status)
    requires InvApart(TU, U1, U2, TV, V1, V2, TA, TB)
    requires Row(TU, U1, U2, TA, TB) && Row(TV, V1, V2, TA, TB)
    requires TU.Value() == TA.Value() > 0 && TV.Value() == TB.Value() > 0 && Gcd(TA.Mag(), TB.Mag()) == 1
    modifies TU, U1, U2, TV, V1, V2
    ensures st == Ok || st == AllocFailed
    ensures st == Ok ==> |V1.p| > 0 && Bezout(V1.Value(), V2.Value(), TA.Value(), TB.Value(), 1)
  {
    CoprimeNotBothEven(TA.Mag(), TB.Mag());
    hide Val, Weight, Gcd, Bezout;
    var cmp := 1;
    while cmp != 0
      invariant Row(TU, U1, U2, TA, TB) && Row(TV, V1, V2, TA, TB)
      invariant TU.Value() >= 0 && TV.Value() > 0 && Gcd(TU.Mag(), TV.Mag()) == 1
      invariant cmp == Sgn(TU.Value())
      decreases TU.Value() + TV.Value()
    {
      st := InvRound(TU, U1, U2, TV, V1, V2, TA, TB);
      if st != Ok { return; }
      cmp := CmpIntZero(TU);
    }
    GcdZero(TV.Mag());
    st := Ok;
  }

  method FreshCopy(A: Mpi) returns (st: Status, X: Mpi)
    requires |A.p| > 0
    ensures fresh(X) && (st == Ok || st == AllocFailed)
    ensures st == Ok ==> X.Value() == A.Value() && |X.p| > 0
  {
    X := new Mpi();
    st := X.Copy(A);
  }

  method FreshBit(z: nat) returns (st: Status, X: Mpi)
    requires z <= 1
    ensures fresh(X) && (st == Ok || st == AllocFailed)
    ensures st == Ok ==> X.Value() == z && |X.p| > 0
  {
    BaseFacts();
    X := new Mpi();
    st := X.Lset(z);
  }

  /** Runs the extended algorithm on `a` and `n` and returns the coefficient of `a`. */
  method Coefficient(TA: Mpi, TB: Mpi) returns (st: Status, V1: Mpi, ghost v2: int)
    requires TA != TB && |TA.p| > 0 && |TB.p| > 0 && TA.Value() > 0 && TB.Value() > 0
    requires Gcd(TA.Mag(), TB.Mag()) == 1
    ensures fresh(V1) && (st == Ok || st == AllocFailed)
    ensures st == Ok ==> |V1.p| > 0 && Bezout(V1.Value(), v2, TA.Value(), TB.Value(), 1)
  {
    hide Val, Weight, Gcd;
    v2 := 0;
    st, V1 := FreshBit(0);
    if st != Ok { return; }
    var TU, TV, U1, U2, V2;
    st, TU := FreshCopy(TA);
    if st != Ok { return; }
    st, TV := FreshCopy(TB);
    if st != Ok { return; }
    st, U1 := FreshBit(1);
    if st != Ok { return; }
    st, U2 := FreshBit(0);
    if st != Ok { return; }
    st, V2 := FreshBit(1);
    if st != Ok { return; }
    st := InvLoop(TU, U1, U2, TV, V1, V2, TA, TB);
    v2 := V2.Value();
  }

  /** X is the inverse of `a` modulo n, strictly between 0 and n. */
  ghost predicate IsInverse(x: int, a: int, n: int)
    requires n > 0
  {
    0 < x < n && Cong(a * x, 1, n)
  }

  lemma InverseFromResidue(x: int, v: int, a: int, n: nat)
    requires n > 1 && 0 <= x < n && Cong(x, v, n) && Cong(a * v, 1, n)
    ensures IsInverse(x, a, n)
  {
    CongRefl(a, n);
    CongMul(a, a, x, v, n);
    CongTrans(a * x, a * v, 1, n);
    if x == 0 { CongUnique(0, 1, n); }
  }

  /** There is one inverse at most. */
  lemma InverseIsUnique(x: int, y: int, a: int, n: int)
    requires n > 0 && IsInverse(x, a, n) && IsInverse(y, a, n)
    ensures x == y
  {
    CongRefl(x, n);
    CongRefl(y, n);
    CongMul(a * y, 1, x, x, n);
    CongMul(a * x, 1, y, y, n);
    assert (a * y) * x == (a * x) * y;
    CongSym((a * y) * x, 1 * x, n);
    CongTrans(x, (a * x) * y, y, n);
    CongUnique(x, y, n);
  }

  /** X = A^-1 mod N. */
  method InvMod(X: Mpi, A: Mpi, N: Mpi) returns (st: Status)
    modifies X
    ensures st == Ok || st == AllocFailed || st == BadInput || st == NotAcceptable
    ensures st == BadInput <==> old(N.Value()) <= 1
    ensures st == NotAcceptable ==> Gcd(old(A.Mag()), old(N.Mag())) != 1
    ensures st == Ok ==> Gcd(old(A.Mag()), old(N.Mag())) == 1
    ensures st == Ok ==> IsInverse(X.Value(), old(A.Value()), old(N.Value())) && |X.p| > 0
  {
    BaseFacts();
    var cmp := CmpInt(N, 1);
    if cmp <= 0 {
      return BadInput;
    }
    hide Val, Weight, Pow, Gcd, Cong, Bezout, IsInverse;
    ghost var a, n := A.Value(), N.Value();
    var G := new Mpi();
    st := GcdMpi(G, A, N);
    if st != Ok { return; }
    cmp := CmpInt(G, 1);
    if cmp != 0 {
      return NotAcceptable;
    }
    CoprimeIsNonZero(A.p, N.Mag());
    NonEmpty(N.p);
    var TA, TB, V1;
    ghost var v2;
    TA := new Mpi();
    st := ModMpi(TA, A, N);
    if st != Ok { return; }
    GcdMod(a, n);
    CoprimeIsNonZero(TA.p, N.Mag());
    st, TB := FreshCopy(N);
    if st != Ok { return; }
    st, V1, v2 := Coefficient(TA, TB);
    if st != Ok { return; }
    BezoutInverse(V1.Value(), v2, TA.Value(), n, a);
    ghost var v := V1.Value();
    st := Reduce(V1, N);
    if st != Ok { return; }
    InverseFromResidue(V1.Value(), v, a, n);
    st := X.Copy(V1);
  }

  lemma CoprimeIsNonZero(p: seq<Limb>, n: nat)
    requires n > 1 && Gcd(Val(p), n) == 1
    ensures Val(p) > 0 && |p| > 0
  {
    GcdZero(n);
  }
}
