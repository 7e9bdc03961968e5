/** RSA parameter algebra: deducing and validating private-key parameters. */
module Rsa {
  import opened Arithmetic
  import opened NumberTheory
  import opened Limbs
  import opened MpiCore
  import opened MpiShift
  import opened MpiAddSub
  import opened MpiMul
  import opened MpiDiv
  import opened MpiExp
  import opened MpiGcd
  import opened SmallPrimes

  // ---------- least common multiple ----------

  lemma LcmFactors(a: nat, b: nat) returns (i: int, j: int)
    requires a > 0 && b > 0
    ensures Gcd(a, b) > 0 && a * b / Gcd(a, b) == j * a == i * b > 0
  {
    GcdDivides(a, b);
    var g := Gcd(a, b);
    hide Gcd;
    i := DividesElim(g, a);
    j := DividesElim(g, b);
    MulStrict(g, 0, i);
    MulStrict(g, 0, j);
    assert a * b == (j * a) * g by { assert a * b == b * a; MulAssoc(a, j, g); }
    assert a * b == (i * b) * g by { assert a * b == b * a; MulAssoc(b, i, g); }
    DivModUnique(a * b, g, j * a, 0);
    DivModUnique(a * b, g, i * b, 0);
    MulMono(a, 1, j);
  }

  lemma LcmPositive(a: nat, b: nat)
    requires a > 0 && b > 0
    ensures Gcd(a, b) > 0 && a * b / Gcd(a, b) > 0
  {
    var i, j := LcmFactors(a, b);
  }

  function Lcm(a: nat, b: nat): (r: nat)
    requires a > 0 && b > 0
    ensures r > 0
  {
    LcmPositive(a, b);
    a * b / Gcd(a, b)
  }

  lemma LcmIsMultiple(a: nat, b: nat)
    requires a > 0 && b > 0
    ensures Divides(a, Lcm(a, b)) && Divides(b, Lcm(a, b))
  {
    var i, j := LcmFactors(a, b);
    DividesIntro(a, Lcm(a, b), j);
    DividesIntro(b, Lcm(a, b), i);
  }

  /** A congruence modulo a multiple holds modulo the divisor. */
  lemma CongDivisor(x: int, y: int, m: int, d: int)
    requires m > 0 && d > 0 && Divides(d, m) && Cong(x, y, m)
    ensures Cong(x, y, d)
  {
    var k := CongElim(x, y, m);
    var j := DividesElim(d, m);
    hide Cong;
    MulAssoc(k, j, d);
    CongIntro(x, y, d, k * j);
  }

  // ---------- the private exponent ----------

  /** D is the inverse of E modulo both P - 1 and Q - 1 (section 3.2 of RFC 8017). */
  ghost predicate ExponentsMatch(p: int, q: int, d: int, e: int)
    requires p > 1 && q > 1
  {
    Cong(d * e, 1, p - 1) && Cong(d * e, 1, q - 1)
  }

  lemma InverseMatches(p: int, q: int, d: int, e: int)
    requires p > 1 && q > 1 && Cong(e * d, 1, Lcm(p - 1, q - 1))
    ensures ExponentsMatch(p, q, d, e)
  {
    LcmIsMultiple(p - 1, q - 1);
    var m := Lcm(p - 1, q - 1);
    hide Lcm;
    CongDivisor(e * d, 1, m, p - 1);
    CongDivisor(e * d, 1, m, q - 1);
  }

  /** K = lcm(P - 1, Q - 1), with D used for their gcd on the way. */
  method LcmOfPredecessors(P: Mpi, Q: Mpi, D: Mpi, K: Mpi) returns (st: Status)
    requires D != P && D != Q && K != P && K != Q && K != D && P.Value() > 1 && Q.Value() > 1
    modifies D, K
    ensures st == Ok || st == AllocFailed
    ensures st == Ok ==> K.Value() == Lcm(P.Value() - 1, Q.Value() - 1)
  {
    BaseFacts();
    hide Val, Weight, Gcd, TruncQuot;
    ghost var p, q := P.Value() - 1, Q.Value() - 1;
    GcdDivides(p, q);
    var L := new Mpi();
    st := SubInt(K, P, 1);
    if st != Ok { return; }
    st := SubInt(L, Q, 1);
    if st != Ok { return; }
    st := GcdMpi(D, K, L);
    if st != Ok { return; }
    st := MulMpi(K, K, L);
    if st != Ok { return; }
    ProductPositive(p, q);
    st := DivMpi(K, null, K, D);
    if st == DivisionByZero { assert false; }
    if st != Ok { return; }
    QuotientOfPositive(p * q, D.Value());
  }

  lemma ProductPositive(p: int, q: int)
    requires p > 0 && q > 0
    ensures p * q > 0
  {}

  lemma QuotientOfPositive(a: int, b: int)
    requires a > 0 && b > 0
    ensures TruncQuot(a, b) == a / b
  {}

  ghost predicate BadExponentInput(P: Mpi, Q: Mpi, E: Mpi, D: Mpi?)
    reads P, Q, E, D
  {
    D == null || D.Value() != 0 || P.Value() <= 1 || Q.Value() <= 1 || E.Value() == 0
  }

  /** D = E^-1 mod lcm(P - 1, Q - 1). */
  method DeducePrivateExponent(P: Mpi, Q: Mpi, E: Mpi, D: Mpi?) returns (st: Status)
    modifies D
    ensures st in {Ok, AllocFailed, BadInput, NotAcceptable}
    ensures old(BadExponentInput(P, Q, E, D)) ==> st == BadInput
    ensures st == BadInput ==> old(BadExponentInput(P, Q, E, D)) || (old(P.Value()) == 2 && old(Q.Value()) == 2)
    ensures st == Ok ==> !(old(P.Value()) == 2 && old(Q.Value()) == 2)
    ensures st == NotAcceptable ==>
      && old(P.Value()) > 1 && old(Q.Value()) > 1
      && Gcd(old(E.Mag()), Lcm(old(P.Value()) - 1, old(Q.Value()) - 1)) != 1
    ensures st == Ok ==>
      && old(P.Value()) > 1 && old(Q.Value()) > 1
      && 0 < D.Value() < Lcm(old(P.Value()) - 1, old(Q.Value()) - 1)
      && ExponentsMatch(old(P.Value()), old(Q.Value()), D.Value(), old(E.Value()))
  {
    BaseFacts();
    if D == null {
      return BadInput;
    }
    var c := CmpInt(D, 0);
    if c != 0 {
      return BadInput;
    }
    var cp := CmpInt(P, 1);
    var cq := CmpInt(Q, 1);
    var ce := CmpInt(E, 0);
    if cp <= 0 || cq <= 0 || ce == 0 {
      return BadInput;
    }
    ghost var p, q, e := P.Value(), Q.Value(), E.Value();
    LcmBoundary(p - 1, q - 1);
    hide Val, Weight, Gcd, Lcm, ExponentsMatch, Cong;
    st := InvertModLcm(P, Q, E, D);
    if st == Ok { InverseMatches(p, q, D.Value(), e); }
  }

  method InvertModLcm(P: Mpi, Q: Mpi, E: Mpi, D: Mpi) returns (st: Status)
    requires D != P && D != Q && D != E && P.Value() > 1 && Q.Value() > 1
    modifies D
    ensures st in {Ok, AllocFailed, BadInput, NotAcceptable}
    ensures st == BadInput ==> Lcm(P.Value() - 1, Q.Value() - 1) <= 1
    ensures Lcm(P.Value() - 1, Q.Value() - 1) <= 1 ==> st == BadInput || st == AllocFailed
    ensures st == NotAcceptable ==> Gcd(E.Mag(), Lcm(P.Value() - 1, Q.Value() - 1)) != 1
    ensures st == Ok ==> IsInverse(D.Value(), E.Value(), Lcm(P.Value() - 1, Q.Value() - 1))
  {
    hide Val, Weight, Gcd, Lcm, Cong, IsInverse;
    var K := new Mpi();
    st := LcmOfPredecessors(P, Q, D, K);
    if st != Ok { return; }
    st := InvMod(D, E, K);
  }

  /** The least common multiple is 1 only for 1 and 1. */
  lemma LcmBoundary(a: nat, b: nat)
    requires a > 0 && b > 0
    ensures Lcm(a, b) > 0 && (Lcm(a, b) <= 1 <==> a == 1 && b == 1)
  {
    LcmIsMultiple(a, b);
    DividesLeq(a, Lcm(a, b));
    DividesLeq(b, Lcm(a, b));
    if a == 1 && b == 1 { GcdDivides(1, 1); DividesLeq(Gcd(1, 1), 1); }
  }

  // ---------- validation ----------

  /** RSA return codes; a bignum error met during a check is added to "key check failed". */
  datatype RsaStatus = RsaOk | RsaBadInput | KeyCheckFailed | Wrapped(cause: Status)

  /** Whether D * E - 1 is a multiple of P - 1. */
  method CheckExponents(D: Mpi, E: Mpi, P: Mpi) returns (st: Status, ok: bool)
    requires P.Value() > 1
    ensures st == Ok || st == AllocFailed
    ensures st == Ok ==> (ok <==> Cong(D.Value() * E.Value(), 1, P.Value() - 1))
  {
    BaseFacts();
    ok := false;
    hide Val, Weight;
    var K := new Mpi();
    var L := new Mpi();
    st := MulMpi(K, D, E);
    if st != Ok { return; }
    st := SubInt(K, K, 1);
    if st != Ok { return; }
    st := SubInt(L, P, 1);
    if st != Ok { return; }
    st := ModMpi(K, K, L);
    if st != Ok { return; }
    var c := CmpInt(K, 0);
    ok := c == 0;
  }

  /** What the parameter check accepts, for whichever parameters are given. */
  ghost predicate ParamsSane(N: Mpi?, P: Mpi?, Q: Mpi?, D: Mpi?, E: Mpi?)
    reads N, P, Q, D, E
  {
    && (N != null && P != null && Q != null ==> N.Value() > 1 && P.Value() * Q.Value() == N.Value())
    && (N != null && D != null && E != null ==> 1 < D.Value() < N.Value() && 1 < E.Value() < N.Value())
    && (P != null && Q != null && D != null && E != null ==>
          P.Value() > 1 && Q.Value() > 1 && ExponentsMatch(P.Value(), Q.Value(), D.Value(), E.Value()))
  }

  method CheckProduct(N: Mpi, P: Mpi, Q: Mpi) returns (st: Status, ok: bool)
    ensures st == Ok || st == AllocFailed
    ensures st == Ok ==> (ok <==> N.Value() > 1 && P.Value() * Q.Value() == N.Value())
  {
    BaseFacts();
    ok := false;
    hide Val, Weight;
    var K := new Mpi();
    st := MulMpi(K, P, Q);
    if st != Ok { return; }
    var c1 := CmpInt(N, 1);
    var c2 := CmpMpi(K, N);
    ok := c1 > 0 && c2 == 0;
  }

  method CheckRanges(N: Mpi, D: Mpi, E: Mpi) returns (ok: bool)
    ensures ok <==> 1 < D.Value() < N.Value() && 1 < E.Value() < N.Value()
  {
    BaseFacts();
    hide Val, Weight;
    var d1 := CmpInt(D, 1);
    var e1 := CmpInt(E, 1);
    var dn := CmpMpi(D, N);
    var en := CmpMpi(E, N);
    ok := !(d1 <= 0 || e1 <= 0 || dn >= 0 || en >= 0);
  }

  method CheckInverses(P: Mpi, Q: Mpi, D: Mpi, E: Mpi) returns (st: Status, ok: bool)
    ensures st == Ok || st == AllocFailed
    ensures st == Ok ==>
      (ok <==> P.Value() > 1 && Q.Value() > 1 && ExponentsMatch(P.Value(), Q.Value(), D.Value(), E.Value()))
  {
    BaseFacts();
    st, ok := Ok, false;
    hide Val, Weight, Cong;
    var p1 := CmpInt(P, 1);
    var q1 := CmpInt(Q, 1);
    if p1 <= 0 || q1 <= 0 {
      return;
    }
    st, ok := CheckExponents(D, E, P);
    if st != Ok || !ok { return; }
    st, ok := CheckExponents(D, E, Q);
  }

  /** The randomised test of primality: absent without a random source, else what it answers for P and for Q. */
  datatype PrimalityTest = NoTest | Answers(p: bool, q: bool)

  /** P and Q, as far as they are given, pass the test, if there is one. */
  predicate PrimesPass(test: PrimalityTest, P: Mpi?, Q: Mpi?) {
    test.Answers? ==> (P != null ==> test.p) && (Q != null ==> test.q)
  }

  /** Accepts exactly the sane parameters whose primes pass the test. */
  method ValidateParams(N: Mpi?, P: Mpi?, Q: Mpi?, D: Mpi?, E: Mpi?, test: PrimalityTest) returns (r: RsaStatus)
    ensures r in {RsaOk, KeyCheckFailed, Wrapped(AllocFailed)}
    ensures r == RsaOk ==> ParamsSane(N, P, Q, D, E) && PrimesPass(test, P, Q)
    ensures r == KeyCheckFailed ==> !(ParamsSane(N, P, Q, D, E) && PrimesPass(test, P, Q))
  {
    if test.Answers? && P != null && !test.p { return KeyCheckFailed; }
    if test.Answers? && Q != null && !test.q { return KeyCheckFailed; }
    hide Val, Weight, ExponentsMatch;
    var st, ok;
    if P != null && Q != null && N != null {
      st, ok := CheckProduct(N, P, Q);
      if st != Ok { return Wrapped(st); }
      if !ok { return KeyCheckFailed; }
    }
    if N != null && D != null && E != null {
      ok := CheckRanges(N, D, E);
      if !ok { return KeyCheckFailed; }
    }
    if P != null && Q != null && D != null && E != null {
      st, ok := CheckInverses(P, Q, D, E);
      if st != Ok { return Wrapped(st); }
      if !ok { return KeyCheckFailed; }
    }
    return RsaOk;
  }

  // ---------- CRT parameters ----------

  /** Whether X - D is a multiple of P - 1. */
  method CheckResidue(X: Mpi, D: Mpi, P: Mpi) returns (st: Status, ok: bool)
    ensures st in {Ok, AllocFailed, DivisionByZero, NegativeValue}
    ensures st == DivisionByZero ==> P.Value() == 1
    ensures st == NegativeValue ==> P.Value() < 1
    ensures st == Ok ==> P.Value() > 1 && (ok <==> Cong(X.Value(), D.Value(), P.Value() - 1))
  {
    BaseFacts();
    ok := false;
    hide Val, Weight;
    var K := new Mpi();
    var L := new Mpi();
    st := SubInt(K, P, 1);
    if st != Ok { return; }
    st := SubMpi(L, X, D);
    if st != Ok { return; }
    st := ModMpi(L, L, K);
    if st != Ok { return; }
    var c := CmpInt(L, 0);
    ok := c == 0;
  }

  /** Whether QP * Q - 1 is a multiple of P. */
  method CheckCoefficient(QP: Mpi, Q: Mpi, P: Mpi) returns (st: Status, ok: bool)
    ensures st in {Ok, AllocFailed, DivisionByZero, NegativeValue}
    ensures st == DivisionByZero ==> P.Value() == 0
    ensures st == NegativeValue ==> P.Value() < 0
    ensures st == Ok ==> P.Value() > 0 && (ok <==> Cong(QP.Value() * Q.Value(), 1, P.Value()))
  {
    BaseFacts();
    ok := false;
    hide Val, Weight;
    var K := new Mpi();
    st := MulMpi(K, QP, Q);
    if st != Ok { return; }
    st := SubInt(K, K, 1);
    if st != Ok { return; }
    st := ModMpi(K, K, P);
    if st != Ok { return; }
    var c := CmpInt(K, 0);
    ok := c == 0;
  }

  ghost predicate ResidueSane(X: Mpi?, D: Mpi, P: Mpi?)
    reads X, D, P
  {
    X != null ==> P != null && P.Value() > 1 && Cong(X.Value(), D.Value(), P.Value() - 1)
  }

  ghost predicate CoefficientSane(QP: Mpi?, Q: Mpi?, P: Mpi?)
    reads QP, Q, P
  {
    QP != null ==> Q != null && P != null && P.Value() > 0 && Cong(QP.Value() * Q.Value(), 1, P.Value())
  }

  method ValidateCrt(P: Mpi?, Q: Mpi?, D: Mpi, DP: Mpi?, DQ: Mpi?, QP: Mpi?) returns (r: RsaStatus)
    ensures r == RsaOk ==> ResidueSane(DP, D, P) && ResidueSane(DQ, D, Q) && CoefficientSane(QP, Q, P)
    ensures r == KeyCheckFailed ==> !(ResidueSane(DP, D, P) && ResidueSane(DQ, D, Q) && CoefficientSane(QP, Q, P))
    ensures r == RsaBadInput ==>
      (DP != null && P == null) || (DQ != null && Q == null) || (QP != null && (P == null || Q == null))
    ensures r.Wrapped? && r.cause != AllocFailed ==> (P != null && P.Value() <= 1) || (Q != null && Q.Value() <= 1)
  {
    hide Val, Weight, Cong;
    var st, ok;
    if DP != null {
      if P == null { return RsaBadInput; }
      st, ok := CheckResidue(DP, D, P);
      if st != Ok { return Wrapped(st); }
      if !ok { return KeyCheckFailed; }
    }
    if DQ != null {
      if Q == null { return RsaBadInput; }
      st, ok := CheckResidue(DQ, D, Q);
      if st != Ok { return Wrapped(st); }
      if !ok { return KeyCheckFailed; }
    }
    if QP != null {
      if P == null || Q == null { return RsaBadInput; }
      st, ok := CheckCoefficient(QP, Q, P);
      if st != Ok { return Wrapped(st); }
      if !ok { return KeyCheckFailed; }
    }
    return RsaOk;
  }

  /** DP = D mod (P - 1), for one prime. */
  method DeduceResidue(DP: Mpi, D: Mpi, P: Mpi) returns (st: Status)
    requires DP != P
    modifies DP
    ensures st in {Ok, AllocFailed, DivisionByZero, NegativeValue}
    ensures P.Value() > 1 ==> st == Ok || st == AllocFailed
    ensures st == Ok ==> P.Value() > 1 && DP.Value() == old(D.Value()) % (P.Value() - 1)
  {
    BaseFacts();
    hide Val, Weight;
    var K := new Mpi();
    st := SubInt(K, P, 1);
    if st != Ok { return; }
    st := ModMpi(DP, D, K);
  }

  lemma ResidueIsSane(d: int, m: int)
    requires m > 0
    ensures Cong(d % m, d, m)
  {
    CongMod(d, m);
  }

  lemma CoefficientIsSane(qp: int, q: int, p: int)
    requires p > 0 && IsInverse(qp, q, p)
    ensures Cong(qp * q, 1, p)
  {
    assert qp * q == q * qp;
  }

  /** Whatever this deduces is what `ValidateCrt` accepts. */
  method DeduceCrt(P: Mpi, Q: Mpi, D: Mpi, DP: Mpi?, DQ: Mpi?, QP: Mpi?) returns (st: Status)
    requires DP !in {P, Q, D} && DQ !in {P, Q, D} && QP !in {P, Q, D}
    requires (DP != null ==> DP != DQ && DP != QP) && (DQ != null ==> DQ != QP)
    modifies DP, DQ, QP
    ensures P.Value() > 1 && Q.Value() > 1 && Gcd(Q.Mag(), P.Mag()) == 1 ==> st == Ok || st == AllocFailed
    ensures st == Ok && DP != null ==> P.Value() > 1 && DP.Value() == D.Value() % (P.Value() - 1)
    ensures st == Ok && DQ != null ==> Q.Value() > 1 && DQ.Value() == D.Value() % (Q.Value() - 1)
    ensures st == Ok && QP != null ==> P.Value() > 1 && IsInverse(QP.Value(), Q.Value(), P.Value())
    ensures st == Ok ==> ResidueSane(DP, D, P) && ResidueSane(DQ, D, Q) && CoefficientSane(QP, Q, P)
  {
    hide Val, Weight, Cong, Gcd, IsInverse;
    st := Ok;
    if DP != null {
      st := DeduceResidue(DP, D, P);
      if st != Ok { return; }
      ResidueIsSane(D.Value(), P.Value() - 1);
    }
    if DQ != null {
      st := DeduceResidue(DQ, D, Q);
      if st != Ok { return; }
      ResidueIsSane(D.Value(), Q.Value() - 1);
    }
    if QP != null {
      st := InvMod(QP, Q, P);
      if st != Ok { return; }
      CoefficientIsSane(QP.Value(), Q.Value(), P.Value());
    }
  }

  // ---------- factoring from the exponents ----------

  type Byte = x: nat | x < 256

  // the bases, sixteen to a row
  const BASES0: seq<Byte> := [2, 3, 5, 7, 11, 13, 17, 19, 23, 29, 31, 37, 41, 43, 47, 53]
  const BASES1: seq<Byte> := [59, 61, 67, 71, 73, 79, 83, 89, 97, 101, 103, 107, 109, 113, 127, 131]
  const BASES2: seq<Byte> := [137, 139, 149, 151, 157, 163, 167, 173, 179, 181, 191, 193, 197, 199, 211, 223]
  const BASES3: seq<Byte> := [227, 229, 233, 239, 241, 251]

  const PRIMES: seq<Byte> := BASES0 + BASES1 + BASES2 + BASES3

  /** The bases are the first 54 primes. */
  lemma BasesArePrimes(t: nat)
    requires t < 54
    ensures |PRIMES| == 54 && PRIMES[t] == Prime(t)
  {
    assert BASES0 == ROW0 && BASES1 == ROW1 && BASES2 == ROW2 && BASES3 == ROW3[..6];
    hide BASES0, BASES1, BASES2, BASES3;
  }

  /** P and Q split N. */
  ghost predicate Splits(p: int, q: int, n: int) {
    p * q == n && 1 < p < n
  }

  lemma DivisorSplits(p: nat, n: nat)
    requires 1 < p < n && Divides(p, n)
    ensures TruncQuot(n, p) == n / p && Splits(p, n / p, n)
  {
    var k := DividesElim(p, n);
    DivModUnique(n, p, k, 0);
  }

  /** The number behind a shares a proper divisor with n. */
  ghost predicate Reveals(a: int, n: nat) {
    a >= 0 && 1 < Gcd(a + 1, n) < n
  }

  /** Looks for a proper divisor that K + 1 shares with N; the quotient goes to Q. */
  method TrySplit(K: Mpi, N: Mpi, P: Mpi, Q: Mpi) returns (st: Status, found: bool)
    requires K != N && P != K && P != N && Q != K && Q != N && P != Q && N.Value() > 0 && |K.p| > 0
    modifies K, P, Q
    ensures st == Ok || st == AllocFailed
    ensures st == Ok && old(K.Value()) >= 0 ==> (found <==> Reveals(old(K.Value()), N.Value()))
    ensures st == Ok && found ==> Splits(P.Value(), Q.Value(), N.Value())
    ensures st == Ok && !found ==> K.Value() == old(K.Value()) + 1 && Q.s == old(Q.s) && Q.p == old(Q.p) && |K.p| > 0
  {
    BaseFacts();
    found := false;
    hide Val, Weight, Gcd, TruncQuot;
    ghost var n := N.Value();
    st := AddInt(K, K, 1);
    if st != Ok { return; }
    GcdDivides(K.Mag(), N.Mag());
    st := GcdMpi(P, K, N);
    if st != Ok { return; }
    var c1 := CmpInt(P, 1);
    var c2 := CmpMpi(P, N);
    if c1 == 1 && c2 == -1 {
      DivisorSplits(P.Value(), n);
      st := DivMpi(Q, null, N, P);
      if st == DivisionByZero { assert false; }
      found := true;
    }
  }

  /** K = (K - 1)^2 mod N. */
  method SquareBack(K: Mpi, N: Mpi) returns (st: Status)
    requires K != N && N.Value() > 0 && |K.p| > 0
    modifies K
    ensures st == Ok || st == AllocFailed
    ensures st == Ok ==> K.Value() == ((old(K.Value()) - 1) * (old(K.Value()) - 1)) % N.Value() && |K.p| > 0
  {
    BaseFacts();
    hide Val, Weight;
    st := SubInt(K, K, 1);
    if st != Ok { return; }
    st := MulMpi(K, K, K);
    if st != Ok { return; }
    st := ModMpi(K, K, N);
  }

  /** k after i squarings modulo n. */
  ghost function Squared(k: nat, n: nat, i: nat): (r: nat)
    requires n > 0
  {
    if i == 0 then k else var r := Squared(k, n, i - 1); (r * r) % n
  }

  /** The powers k, k^2, k^4, ..., the squarings done modulo n, reveal a divisor within so many turns. */
  ghost predicate RevealedWithin(k: nat, n: nat, turns: nat)
    requires n > 0
  {
    exists i: nat :: i < turns && Reveals(Squared(k, n, i), n)
  }

  /** Once 1, always 1, and 1 reveals nothing about an odd number. */
  lemma {:induction false} OneStays(k: nat, n: nat, m: nat, i: nat)
    requires n > 1 && n % 2 == 1 && m <= i && Squared(k, n, m) == 1
    ensures Squared(k, n, i) == 1 && !Reveals(Squared(k, n, i), n)
  {
    if m < i {
      OneStays(k, n, m, i - 1);
      DivModUnique(1, n, 0, 1);
    }
    TwoSharesNothing(n);
  }

  lemma TwoSharesNothing(n: nat)
    requires n > 1 && n % 2 == 1
    ensures Gcd(2, n) == 1
  {
    var h := n / 2;
    assert 2 % n == 2 by { DivModUnique(2, n, 0, 2); }
    assert n % 2 == 1;
    assert Gcd(n, 2) == Gcd(2, 1) == Gcd(1, 0) == 1;
  }

  /** K, K^2, K^4, ... at most `order` of them: success, or K as it was left. */
  method TryPowers(K: Mpi, N: Mpi, P: Mpi, Q: Mpi, order: nat) returns (st: Status, found: bool)
    requires K != N && P != K && P != N && Q != K && Q != N && P != Q && |K.p| > 0
    requires N.Value() > 1 && N.Value() % 2 == 1 && K.Value() >= 0 && order < 65535
    modifies K, P, Q
    ensures st == Ok || st == AllocFailed
    ensures st == Ok ==> (found <==> RevealedWithin(old(K.Value()), N.Value(), order))
    ensures st == Ok && found ==> Splits(P.Value(), Q.Value(), N.Value())
    ensures st == Ok && !found ==> Q.s == old(Q.s) && Q.p == old(Q.p) && |K.p| > 0
    ensures st == Ok && !found ==> (K.Value() == 1 <==> Squared(old(K.Value()), N.Value(), order) == 1)
  {
    hide Val, Weight, Gcd, Reveals, RevealedWithin, Squared, Splits;
    BaseFacts();
    ghost var k, n := K.Value(), N.Value();
    found := false;
    SquaredStart(k, n);
    var iter := 1;
    while iter <= order
      invariant 1 <= iter <= order + 1 && !found && Q.s == old(Q.s) && Q.p == old(Q.p) && |K.p| > 0
      invariant N.Value() == n && K.Value() == Squared(k, n, iter - 1)
      invariant forall i: nat :: i < iter - 1 ==> !Reveals(Squared(k, n, i), n)
      decreases order + 1 - iter
    {
      var c := CmpInt(K, 1);
      if c == 0 {
        OnesFollow(k, n, iter - 1, order);
        return Ok, false;
      }
      st, found := TrySplit(K, N, P, Q);
      if st != Ok { return; }
      if found {
        FoundWithin(k, n, iter - 1, order);
        return;
      }
      SquaredNext(k, n, iter - 1);
      st := SquareBack(K, N);
      if st != Ok { return; }
      iter := (iter + 1) % 65536;
    }
    NothingWithin(k, n, order);
    st := Ok;
  }

  lemma SquaredStart(k: nat, n: nat)
    requires n > 0
    ensures Squared(k, n, 0) == k
  {}

  lemma SquaredNext(k: nat, n: nat, i: nat)
    requires n > 0
    ensures Squared(k, n, i + 1) == (Squared(k, n, i) * Squared(k, n, i)) % n
  {}

  lemma FoundWithin(k: nat, n: nat, i: nat, turns: nat)
    requires n > 0 && i < turns && Reveals(Squared(k, n, i), n)
    ensures RevealedWithin(k, n, turns)
  {}

  lemma NothingWithin(k: nat, n: nat, turns: nat)
    requires n > 0 && forall i: nat :: i < turns ==> !Reveals(Squared(k, n, i), n)
    ensures !RevealedWithin(k, n, turns)
  {}

  lemma OnesFollow(k: nat, n: nat, m: nat, order: nat)
    requires n > 1 && n % 2 == 1 && m <= order && Squared(k, n, m) == 1
    requires forall i: nat :: i < m ==> !Reveals(Squared(k, n, i), n)
    ensures !RevealedWithin(k, n, order) && Squared(k, n, order) == 1
  {
    forall i: nat | m <= i
      ensures Squared(k, n, i) == 1 && !Reveals(Squared(k, n, i), n)
    {
      OneStays(k, n, m, i);
    }
    hide Squared, Reveals;
  }

  /** The order of two in D * E - 1, as the 16-bit counter sees it. */
  ghost predicate ShortOrder(t: nat) {
    forall n: nat :: IsLsb(t, n) ==> n % 65536 != 65535
  }

  /** The 16-bit loop counter after some turns. */
  function Counter(turns: nat): nat {
    (1 + turns) % 65536
  }

  /** The counter passes its bound, at the first turn that could be one too many, for every bound but the largest. */
  lemma CounterPasses(order: nat)
    requires order < 65536
    ensures (exists turns: nat :: Counter(turns) > order) <==> order != 65535
    ensures order != 65535 ==> Counter(order) > order && forall turns: nat :: turns < order ==> Counter(turns) <= order
  {
    if order != 65535 { assert Counter(order) == order + 1; }
  }

  /** The orders ruled out are exactly those whose loop could only be left by a break. */
  lemma ShortOrderMeans(t: nat, n: nat)
    requires IsLsb(t, n)
    ensures ShortOrder(t) <==> exists turns: nat :: Counter(turns) > n % 65536
  {
    CounterPasses(n % 65536);
    forall m: nat | IsLsb(t, m)
      ensures m == n
    {
      LsbUnique(t, m, n);
    }
    hide IsLsb, Counter;
  }

  // ---------- what the powers of a base tell ----------

  /** Squaring i times raises to 2^i. */
  lemma {:induction false} SquaredIsPower(b: nat, t: nat, n: nat, i: nat)
    requires n > 0
    ensures Squared(Pow(b, t) % n, n, i) == Pow(b, t * Pow(2, i)) % n
  {
    hide *;
    if i == 0 {
      PowZero();
      SquaredStart(Pow(b, t) % n, n);
    } else {
      SquaredIsPower(b, t, n, i - 1);
      SquaredNext(Pow(b, t) % n, n, i - 1);
      var m := t * Pow(2, i - 1);
      Pow2Succ(i);
      MulAssoc(t, 2, Pow(2, i - 1));
      TwiceIsSum(t, Pow(2, i - 1), Pow(2, i), m);
      PowAdd(b, m, m);
      SquareOfResidue(Pow(b, m), n);
    }
  }

  lemma TwiceIsSum(t: int, h: int, w: int, m: int)
    requires w == 2 * h && m == t * h
    ensures t * w == m + m
  {
    Distribute(t, h, h);
  }

  lemma SquareOfResidue(a: int, n: nat)
    requires n > 0
    ensures ((a % n) * (a % n)) % n == (a * a) % n
  {
    hide Cong;
    CongMod(a, n);
    CongMul(a % n, a, a % n, a, n);
    CongSameMod((a % n) * (a % n), a * a, n);
  }

  /** What a number reveals depends on its residue only. */
  lemma ResidueReveals(a: nat, n: nat)
    requires n > 0
    ensures Reveals(a % n, n) <==> Reveals(a, n)
  {
    CongMod(a, n);
    CongRefl(1, n);
    CongAdd(a % n, a, 1, 1, n);
    CongSameMod(a % n + 1, a + 1, n);
    GcdMod(a + 1, n);
    GcdMod(a % n + 1, n);
    hide Gcd, Cong;
  }

  /** x with j twos taken out. */
  ghost function Halved(x: nat, j: nat): nat {
    x / Pow(2, j)
  }

  /** The base b is coprime to n, and one of its powers to x / 2, x / 4, ..., x / 2^order reveals a divisor of n. */
  ghost predicate Helps(b: nat, x: nat, order: nat, n: nat) {
    Gcd(b, n) == 1 && exists j: nat :: 1 <= j <= order && Reveals(Pow(b, Halved(x, j)), n)
  }

  /** The squarings of b^t reveal what the powers of b to the halves of x = t * 2^order reveal. */
  lemma HelpsBySquaring(b: nat, t: nat, x: nat, order: nat, n: nat)
    requires n > 0 && x == t * Pow(2, order) && Gcd(b, n) == 1
    ensures RevealedWithin(Pow(b, t) % n, n, order) <==> Helps(b, x, order, n)
    ensures Squared(Pow(b, t) % n, n, order) == Pow(b, x) % n
  {
    SquaredIsPower(b, t, n, order);
    hide *;
    if RevealedWithin(Pow(b, t) % n, n, order) { SquaringHelps(b, t, x, order, n); }
    if Helps(b, x, order, n) { HelpShows(b, t, x, order, n); }
  }

  lemma SquaringHelps(b: nat, t: nat, x: nat, order: nat, n: nat)
    requires n > 0 && x == t * Pow(2, order) && Gcd(b, n) == 1 && RevealedWithin(Pow(b, t) % n, n, order)
    ensures Helps(b, x, order, n)
  {
    hide Pow, Squared, Reveals, Gcd, Halved;
    var i: nat :| i < order && Reveals(Squared(Pow(b, t) % n, n, i), n);
    SameReveals(b, t, x, order, n, i);
  }

  lemma HelpShows(b: nat, t: nat, x: nat, order: nat, n: nat)
    requires n > 0 && x == t * Pow(2, order) && Helps(b, x, order, n)
    ensures RevealedWithin(Pow(b, t) % n, n, order)
  {
    hide Pow, Squared, Reveals, Gcd, Halved;
    var j: nat :| 1 <= j <= order && Reveals(Pow(b, Halved(x, j)), n);
    SameReveals(b, t, x, order, n, order - j);
  }

  lemma SameReveals(b: nat, t: nat, x: nat, order: nat, n: nat, i: nat)
    requires n > 0 && x == t * Pow(2, order) && i < order
    ensures Reveals(Squared(Pow(b, t) % n, n, i), n) <==> Reveals(Pow(b, Halved(x, order - i)), n)
  {
    hide Pow, Squared, Reveals, Gcd;
    SquaredIsPower(b, t, n, i);
    PowAdd(2, i, order - i);
    PowPositive(order - i);
    PowPositive(i);
    ExactHalving(t, Pow(2, i), Pow(2, order - i), x);
    PowNat(b, t * Pow(2, i));
    ResidueReveals(Pow(b, t * Pow(2, i)), n);
  }

  lemma PowPositive(k: nat)
    ensures Pow(2, k) >= 1
  {}

  lemma {:induction false} PowNat(b: nat, k: nat)
    ensures Pow(b, k) >= 0
  {
    if k > 0 {
      PowNat(b, k - 1);
      MulMono(b, 0, Pow(b, k - 1));
    }
  }

  lemma ExactHalving(t: nat, g: nat, h: nat, x: int)
    requires h > 0 && x == t * (g * h)
    ensures x / h == t * g && t * g >= 0
  {
    MulAssoc(t, g, h);
    MulMono(t, 0, g);
    DivModUnique(x, h, t * g, 0);
  }

  /** The first base the code takes. */
  ghost function FirstBase(n: nat): nat {
    if n % 8 == 1 then 1 else 0
  }

  /**
    The t-th prime, from number `from` on, helps, and no prime before it that is coprime to n shows that the
    exponents do not belong to n.
  */
  ghost predicate HelpedBy(t: nat, from: nat, x: nat, order: nat, n: nat) {
    && from <= t < 54 && Helps(Prime(t), x, order, n)
    && forall u: nat :: from <= u < t && Gcd(Prime(u), n) == 1 ==> Pow(Prime(u), x) % n == 1
  }

  ghost predicate Factored(from: nat, x: nat, order: nat, n: nat) {
    n % 2 == 1 && exists t: nat :: HelpedBy(t, from, x, order, n)
  }

  /** The bases below 256: the odd primes, and 2 unless n is 1 modulo 8. */
  lemma BasesAre(b: nat, n: nat)
    ensures (exists t: nat :: FirstBase(n) <= t < 54 && b == Prime(t)) <==>
      IsPrime(b) && b < 256 && (b == 2 ==> n % 8 != 1)
  {
    LastPrime();
    FirstValues();
    if IsPrime(b) && b < 256 {
      Listed(b);
      var t: nat :| t < 64 && Prime(t) == b;
      if t >= 54 && t > 53 { Ascending(53, t); }
      if t > 54 { Ascending(54, t); }
      hide Prime, IsPrime;
    }
    if t: nat :| FirstBase(n) <= t < 54 && b == Prime(t) {
      if t < 53 { Ascending(t, 53); }
      if t > 0 { Ascending(0, t); }
      Listed(b);
    }
  }

  /**
    What a refusal means for odd n: some base coprime to n shows that the exponents do not belong to n, or none of
    the bases reveals a divisor of n.
  */
  lemma RefusalMeans(x: nat, order: nat, n: nat)
    requires n % 2 == 1 && !Factored(FirstBase(n), x, order, n)
    ensures
      || (exists b: nat ::
        IsPrime(b) && b < 256 && (b == 2 ==> n % 8 != 1) && Gcd(b, n) == 1 && Pow(b, x) % n != 1)
      || (forall b: nat, j: nat ::
        IsPrime(b) && b < 256 && (b == 2 ==> n % 8 != 1) && Gcd(b, n) == 1 && 1 <= j <= order ==>
          !Reveals(Pow(b, Halved(x, j)), n))
  {
    if b: nat, j: nat :| (IsPrime(b) && b < 256 && (b == 2 ==> n % 8 != 1) && Gcd(b, n) == 1 && 1 <= j <= order
      && Reveals(Pow(b, Halved(x, j)), n))
    {
      BasesAre(b, n);
      var t: nat :| FirstBase(n) <= t < 54 && b == Prime(t);
      assert Helps(Prime(t), x, order, n);
      assert !HelpedBy(t, FirstBase(n), x, order, n);
      var u: nat :| FirstBase(n) <= u < t && Gcd(Prime(u), n) == 1 && Pow(Prime(u), x) % n != 1;
      BasesAre(Prime(u), n);
    }
  }

  /**
    Recovers the factors of N from both exponents by trying small bases. `lost` says how often the limb for the
    candidate cannot be had: the code does not notice, and passes the base over. `ShortOrder` rules out the one
    value at which the 16-bit loop counter cannot pass its bound.
  */
  method DeducePrimes(N: Mpi, E: Mpi, D: Mpi, P: Mpi?, Q: Mpi?, lost: nat) returns (st: Status)
    requires P !in {N, E, D} && Q !in {N, E, D} && (P != null ==> P != Q)
    requires D.Value() > 1 && E.Value() > 1 ==> ShortOrder(Abs(D.Value() * E.Value() - 1))
    modifies P, Q
    ensures st in {Ok, AllocFailed, BadInput}
    ensures P == null || Q == null || old(P.p != [] || Q.p != []) ==> st == BadInput
    ensures !(1 < D.Value() < N.Value() && 1 < E.Value() < N.Value()) ==> st == BadInput
    ensures st == Ok ==> P != null && Q != null && Splits(P.Value(), Q.Value(), N.Value())
    ensures P != null && Q != null && old(P.p == [] && Q.p == []) && st != AllocFailed ==>
      1 < D.Value() < N.Value() && 1 < E.Value() < N.Value() ==>
      D.Value() * E.Value() > 0 && forall r: nat :: IsLsb(D.Value() * E.Value() - 1, r) ==>
        (st == Ok <==> Factored(FirstBase(N.Value()) + lost, D.Value() * E.Value() - 1, r % 65536, N.Value()))
  {
    if P == null || Q == null || P.p != [] || Q.p != [] {
      return BadInput;
    }
    var sane := CheckRanges(N, D, E);
    var positive := CmpIntZero(N);
    if positive <= 0 || !sane {
      return BadInput;
    }
    hide Val, Weight, Pow, IsLsb, Factored;
    ghost var n, x := N.Value(), D.Value() * E.Value() - 1;
    var T, order;
    st, T, order := OddExponent(D, E);
    if st != Ok { return; }
    if order == 0 {
      NothingToHalve(FirstBase(n) + lost, x, n);
      return BadInput;
    }
    st := TryBases(N, T, P, Q, order, lost, x);
  }

  lemma NothingToHalve(from: nat, x: nat, n: nat)
    ensures !Factored(from, x, 0, n)
  {}

  /** T = the odd part of D * E - 1, with the number of twos taken out. */
  method OddExponent(D: Mpi, E: Mpi) returns (st: Status, T: Mpi, order: nat)
    requires D.Value() > 1 && E.Value() > 1 && ShortOrder(Abs(D.Value() * E.Value() - 1))
    ensures fresh(T) && (st == Ok || st == AllocFailed)
    ensures D.Value() * E.Value() >= 4
    ensures st == Ok ==> order < 65535 && T.Value() >= 0 && T.Value() * Pow(2, order) == D.Value() * E.Value() - 1
    ensures st == Ok ==> forall r: nat :: IsLsb(D.Value() * E.Value() - 1, r) ==> order == r % 65536
  {
    BaseFacts();
    hide Val, Weight, Pow, IsLsb;
    order := 0;
    ghost var d, e := D.Value(), E.Value();
    assert d * e >= 4 by { MulGrow(2, d, 2, e); }
    T := new Mpi();
    st := MulMpi(T, D, E);
    if st != Ok { return; }
    st := SubInt(T, T, 1);
    if st != Ok { return; }
    order := Lsb(T);
    ghost var x, r := d * e - 1, order;
    OnlyLsb(x, r);
    order := order % 65536;
    TwosComeOut(x, r, order);
    if order == 0 {
      PowZero();
      return;
    }
    st := ShiftR(T, order);
  }

  lemma OnlyLsb(x: nat, r: nat)
    requires IsLsb(x, r)
    ensures forall m: nat :: IsLsb(x, m) ==> m == r
  {
    forall m: nat | IsLsb(x, m)
      ensures m == r
    {
      LsbUnique(x, m, r);
    }
  }

  lemma TwosComeOut(x: nat, r: nat, k: nat)
    requires IsLsb(x, r) && k <= r
    ensures Pow(2, k) > 0 && (x / Pow(2, k)) * Pow(2, k) == x
  {
    PowPositive(k);
    PowPositive(r);
    PowAdd(2, r - k, k);
    var q := x / Pow(2, r);
    assert x == q * Pow(2, r);
    hide Pow;
    MulAssoc(q, Pow(2, r - k), Pow(2, k));
    DivModUnique(x, Pow(2, k), q * Pow(2, r - k), 0);
  }

  /** One base: skipped without a limb, or unless coprime to N; else raised to the odd exponent and squared up. */
  method TryBase(base: Byte, granted: bool, K: Mpi, N: Mpi, T: Mpi, P: Mpi, Q: Mpi, order: nat, ghost x: nat)
    returns (st: Status, found: bool, tried: bool)
    requires K != N && K != T && P !in {K, N, T} && Q !in {K, N, T} && P != Q && (granted || K.p == [])
    requires base > 1 && N.Value() > 1 && order < 65535 && (Q.p == [] || IsSquareCache(Q, N))
    requires T.Value() >= 0 && x == T.Value() * Pow(2, order)
    modifies K, P, Q
    ensures st in {Ok, AllocFailed, BadInput}
    ensures st == Ok && !granted ==> !tried && !found && K.p == [] && Q.p == old(Q.p) && Q.s == old(Q.s)
    ensures st == Ok && granted ==> (tried <==> Gcd(base, N.Value()) == 1) && (tried ==> N.Value() % 2 == 1)
    ensures st == BadInput ==> N.Value() % 2 == 0
    ensures st == Ok && granted ==> (found <==> Helps(base, x, order, N.Value()))
    ensures st == Ok && found ==> tried && Splits(P.Value(), Q.Value(), N.Value())
    ensures st == Ok && tried && !found ==> (K.Value() == 1 <==> Pow(base, x) % N.Value() == 1)
    ensures st == Ok && !found ==> (Q.p == [] || IsSquareCache(Q, N))
  {
    BaseFacts();
    found, tried := false, false;
    hide Val, Weight, Pow, Gcd, ExpResult, Helps, RevealedWithin, Squared, Splits;
    ghost var n, t := N.Value(), T.Value();
    if granted {
      if K.p == [] { K.p := [0]; }
      st := K.Lset(base);
    }
    st := GcdMpi(P, K, N);
    if st != Ok { return; }
    GcdZero(n);
    var c := CmpInt(P, 1);
    if c != 0 {
      if granted { NotCoprime(base, x, order, n); }
      return;
    }
    CoprimeIsNonZero(K.p, n);
    st := ExpMod(K, K, T, N, Q);
    if st != Ok { return; }
    PlainPower(base, t, n);
    tried := true;
    HelpsBySquaring(base, t, x, order, n);
    st, found := TryPowers(K, N, P, Q, order);
  }

  lemma NotCoprime(b: nat, x: nat, order: nat, n: nat)
    requires Gcd(b, n) != 1
    ensures !Helps(b, x, order, n)
  {}

  lemma PlainPower(b: nat, t: nat, n: nat)
    requires n > 0
    ensures ExpResult(false, b, t, n) == Pow(b, t) % n >= 0
  {}

  lemma FirstBaseIs(p: seq<Limb>)
    requires |p| > 0
    ensures FirstBase(Val(p)) == if p[0] % 8 == 1 then 1 else 0
  {
    ValLow(p);
    PowAdd(2, 3, BIL - 3);
    assert Pow(2, 3) == 8;
    hide Val, Weight, Pow;
    SameModEight(Val(p), p[0], Pow(2, BIL - 3), Val(p[1..]));
  }

  lemma SameModEight(v: int, x: int, h: int, y: int)
    requires v == x + (8 * h) * y
    ensures v % 8 == x % 8
  {
    MulAssoc(8, h, y);
    assert v == x + 8 * (h * y);
  }

  /** Up to attempt a, no base has helped and none has shown the exponents not to belong to n. */
  ghost predicate NoneYet(from: nat, a: nat, x: nat, order: nat, n: nat)
    requires n > 0
  {
    forall u: nat :: from <= u < a && u < 54 ==>
      !Helps(Prime(u), x, order, n) && (Gcd(Prime(u), n) == 1 ==> Pow(Prime(u), x) % n == 1)
  }

  /** One turn: the factors, the end of the search, or one more base without effect. */
  method Attempt(attempt: nat, granted: bool, K: Mpi, N: Mpi, T: Mpi, P: Mpi, Q: Mpi, order: nat, ghost x: nat,
          ghost from: nat)
    returns (st: Status, found: bool, stop: bool)
    requires K != N && K != T && P !in {K, N, T} && Q !in {K, N, T} && P != Q && (granted || K.p == [])
    requires N.Value() > 1 && order < 65535 && (Q.p == [] || IsSquareCache(Q, N))
    requires T.Value() >= 0 && x == T.Value() * Pow(2, order)
    requires attempt < 54 && (granted <==> from <= attempt) && NoneYet(from, attempt, x, order, N.Value())
    modifies K, P, Q
    ensures st in {Ok, AllocFailed, BadInput}
    ensures st == BadInput || (st == Ok && stop) ==> !Factored(from, x, order, N.Value())
    ensures st == Ok && found ==> Splits(P.Value(), Q.Value(), N.Value()) && Factored(from, x, order, N.Value())
    ensures st == Ok && !found ==> (Q.p == [] || IsSquareCache(Q, N)) && (granted || K.p == [])
    ensures st == Ok && !found && !stop ==> NoneYet(from, attempt + 1, x, order, N.Value())
  {
    hide *;
    ghost var n := N.Value();
    BasesArePrimes(attempt);
    BasesAbove(attempt);
    stop := false;
    var tried;
    st, found, tried := TryBase(PRIMES[attempt], granted, K, N, T, P, Q, order, x);
    if st == AllocFailed { return; }
    if st != Ok {
      EvenIsNotFactored(from, x, order, n);
      return;
    }
    if found {
      FactoredAt(attempt, from, x, order, n);
      return;
    }
    if tried {
      stop := IsNotOne(K);
    }
    if stop {
      GivenUpAt(attempt, from, x, order, n);
    } else {
      OneMoreBase(from, attempt, x, order, n);
    }
  }

  method IsNotOne(K: Mpi) returns (b: bool)
    ensures b <==> K.Value() != 1
  {
    BaseFacts();
    hide Val, Weight, Pow;
    var c := CmpInt(K, 1);
    b := c != 0;
  }

  /** From the first base on, until a base finds the factors or shows that the exponents do not belong to N. */
  method TryBases(N: Mpi, T: Mpi, P: Mpi, Q: Mpi, order: nat, lost: nat, ghost x: nat) returns (st: Status)
    requires P !in {N, T} && Q !in {N, T} && P != Q && N.Value() > 1 && order < 65535 && Q.p == []
    requires T.Value() >= 0 && x == T.Value() * Pow(2, order)
    modifies P, Q
    ensures st in {Ok, AllocFailed, BadInput}
    ensures st == Ok ==> Splits(P.Value(), Q.Value(), N.Value())
    ensures st != AllocFailed ==> (st == Ok <==> Factored(FirstBase(N.Value()) + lost, x, order, N.Value()))
  {
    NonEmpty(N.p);
    FirstBaseIs(N.p);
    BasesArePrimes(0);
    hide Val, Weight, Pow, Gcd, IsSquareCache, Splits, Helps, Factored, NoneYet, PRIMES, Prime, FirstBase;
    ghost var n, from := N.Value(), FirstBase(N.Value()) + lost;
    var K := new Mpi();
    var attempt := if N.p[0] % 8 == 1 then 1 else 0;
    var failing := lost;
    NoneAtFirst(from, attempt, x, order, n);
    while attempt < |PRIMES|
      invariant 0 <= attempt <= |PRIMES| == 54 && N.Value() == n && (Q.p == [] || IsSquareCache(Q, N))
      invariant failing == (if attempt < from then from - attempt else 0) && (failing > 0 ==> K.p == [])
      invariant NoneYet(from, attempt, x, order, n)
    {
      var found, stop;
      st, found, stop := Attempt(attempt, failing == 0, K, N, T, P, Q, order, x, from);
      if st != Ok || found { return; }
      if stop { break; }
      if failing > 0 { failing := failing - 1; }
      attempt := attempt + 1;
    }
    if attempt == |PRIMES| { NoneAtAll(from, x, order, n); }
    return BadInput;
  }

  lemma NoneAtFirst(from: nat, a: nat, x: nat, order: nat, n: nat)
    requires n > 0 && a <= from
    ensures NoneYet(from, a, x, order, n)
  {}

  lemma BasesAbove(t: nat)
    requires t < 54
    ensures Prime(t) > 1
  {
    FirstValues();
    if t > 0 { Ascending(0, t); }
    hide Prime;
  }

  lemma EvenIsNotFactored(from: nat, x: nat, order: nat, n: nat)
    requires n % 2 == 0
    ensures !Factored(from, x, order, n)
  {}

  lemma FactoredAt(t: nat, from: nat, x: nat, order: nat, n: nat)
    requires n > 0 && n % 2 == 1 && from <= t < 54 && NoneYet(from, t, x, order, n) && Helps(Prime(t), x, order, n)
    ensures Factored(from, x, order, n)
  {
    hide Helps, Prime;
    assert HelpedBy(t, from, x, order, n);
  }

  lemma OneMoreBase(from: nat, a: nat, x: nat, order: nat, n: nat)
    requires n > 0 && a < 54 && NoneYet(from, a, x, order, n)
    requires from <= a ==> !Helps(Prime(a), x, order, n) && (Gcd(Prime(a), n) == 1 ==> Pow(Prime(a), x) % n == 1)
    ensures NoneYet(from, a + 1, x, order, n)
  {
    hide Helps, Prime, Gcd, Pow;
  }

  lemma GivenUpAt(a: nat, from: nat, x: nat, order: nat, n: nat)
    requires n > 0 && from <= a < 54 && NoneYet(from, a, x, order, n)
    requires !Helps(Prime(a), x, order, n) && Gcd(Prime(a), n) == 1 && Pow(Prime(a), x) % n != 1
    ensures !Factored(from, x, order, n)
  {
    hide Helps, Prime, Gcd, Pow;
  }

  lemma NoneAtAll(from: nat, x: nat, order: nat, n: nat)
    requires n > 0 && NoneYet(from, 54, x, order, n)
    ensures !Factored(from, x, order, n)
  {
    hide Helps, Prime, Gcd, Pow;
  }
}
