/** Divisibility and greatest common divisors of natural numbers. */
module NumberTheory {
  import opened Arithmetic

  predicate Divides(d: int, a: int)
    requires d > 0
  {
    a % d == 0
  }

  lemma DividesIntro(d: int, a: int, k: int)
    requires d > 0 && a == k * d
    ensures Divides(d, a)
  {
    DivModUnique(a, d, k, 0);
  }

  lemma DividesElim(d: int, a: int) returns (k: int)
    requires d > 0 && Divides(d, a)
    ensures a == k * d
  {
    k := a / d;
    assert a == d * k + a % d;
  }

  lemma DividesSum(d: int, a: int, b: int)
    requires d > 0 && Divides(d, a) && Divides(d, b)
    ensures Divides(d, a + b) && Divides(d, a - b)
  {
    var k := DividesElim(d, a);
    var l := DividesElim(d, b);
    DividesIntro(d, a + b, k + l);
    DividesIntro(d, a - b, k - l);
  }

  lemma DividesProduct(d: int, a: int, m: int)
    requires d > 0 && Divides(d, a)
    ensures Divides(d, a * m) && Divides(d, m * a)
  {
    var k := DividesElim(d, a);
    DividesIntro(d, a * m, k * m);
  }

  lemma DividesLeq(d: int, a: int)
    requires d > 0 && a > 0 && Divides(d, a)
    ensures d <= a
  {
    var k := DividesElim(d, a);
    MulStrict(d, 0, k);
    MulMono(d, 1, k);
  }

  /** The greatest common divisor, by Euclid's algorithm. */
  function Gcd(a: nat, b: nat): nat
    decreases b
  {
    if b == 0 then a else Gcd(b, a % b)
  }

  lemma {:induction false} GcdDivides(a: nat, b: nat)
    ensures Gcd(a, b) == 0 <==> a == 0 && b == 0
    ensures Gcd(a, b) > 0 ==> Divides(Gcd(a, b), a) && Divides(Gcd(a, b), b)
    decreases b
  {
    if b == 0 {
      if a > 0 {
        DividesIntro(a, a, 1);
        DividesIntro(a, 0, 0);
      }
    } else {
      GcdDivides(b, a % b);
      var g := Gcd(b, a % b);
      assert a == b * (a / b) + a % b;
      DividesProduct(g, b, a / b);
      DividesSum(g, b * (a / b), a % b);
    }
  }

  lemma {:induction false} GcdGreatest(a: nat, b: nat, d: int)
    requires d > 0 && Divides(d, a) && Divides(d, b)
    ensures Divides(d, Gcd(a, b))
    decreases b
  {
    if b != 0 {
      assert a == b * (a / b) + a % b;
      DividesProduct(d, b, a / b);
      DividesSum(d, a, b * (a / b));
      GcdGreatest(b, a % b, d);
    }
  }

  /** Two pairs with the same common divisors. */
  ghost predicate SameDivisors(a: nat, b: nat, c: nat, d: nat) {
    forall k: int :: k > 0 ==> (Divides(k, a) && Divides(k, b) <==> Divides(k, c) && Divides(k, d))
  }

  lemma GcdOneWay(a: nat, b: nat, c: nat, d: nat)
    requires forall k: int :: k > 0 && Divides(k, a) && Divides(k, b) ==> Divides(k, c) && Divides(k, d)
    ensures Gcd(a, b) > 0 ==> Divides(Gcd(a, b), Gcd(c, d))
  {
    GcdDivides(a, b);
    if Gcd(a, b) > 0 { GcdGreatest(c, d, Gcd(a, b)); }
  }

  lemma ZeroPair(a: nat, b: nat, c: nat, d: nat)
    requires SameDivisors(a, b, c, d) && a == 0 && b == 0
    ensures c == 0 && d == 0
  {
    var k := c + d + 1;
    DividesIntro(k, 0, 0);
    assert Divides(k, a) && Divides(k, b);
    if c > 0 { DividesLeq(k, c); }
    if d > 0 { DividesLeq(k, d); }
  }

  lemma SameDivisorsSameGcd(a: nat, b: nat, c: nat, d: nat)
    requires SameDivisors(a, b, c, d)
    ensures Gcd(a, b) == Gcd(c, d)
  {
    GcdDivides(a, b);
    GcdDivides(c, d);
    GcdOneWay(a, b, c, d);
    GcdOneWay(c, d, a, b);
    if a == 0 && b == 0 {
      ZeroPair(a, b, c, d);
    } else if c == 0 && d == 0 {
      ZeroPair(c, d, a, b);
    } else {
      DividesLeq(Gcd(a, b), Gcd(c, d));
      DividesLeq(Gcd(c, d), Gcd(a, b));
    }
  }

  lemma GcdComm(a: nat, b: nat)
    ensures Gcd(a, b) == Gcd(b, a)
  {
    SameDivisorsSameGcd(a, b, b, a);
  }

  lemma GcdZero(b: nat)
    ensures Gcd(0, b) == b && Gcd(b, 0) == b
  {
    GcdComm(0, b);
  }

  lemma GcdSubtract(a: nat, b: nat)
    requires a >= b
    ensures Gcd(a - b, b) == Gcd(a, b)
  {
    forall k: int | k > 0
      ensures Divides(k, a - b) && Divides(k, b) <==> Divides(k, a) && Divides(k, b)
    {
      if Divides(k, b) {
        if Divides(k, a) { DividesSum(k, a, b); }
        if Divides(k, a - b) { DividesSum(k, a - b, b); }
      }
    }
    SameDivisorsSameGcd(a - b, b, a, b);
  }

  /** An odd divisor of `2 * a` divides `a`. */
  lemma OddDivisor(k: int, a: int)
    requires k > 0 && k % 2 == 1 && Divides(k, 2 * a)
    ensures Divides(k, a)
  {
    var m := DividesElim(k, 2 * a);
    var j, h := m / 2, k / 2;
    assert m % 2 == 0 by {
      assert m * k == 2 * (m * h) + m;
    }
    assert 2 * a == 2 * (j * k);
    DividesIntro(k, a, j);
  }

  lemma DivisorOfOdd(k: int, b: int)
    requires k > 0 && b % 2 == 1 && Divides(k, b)
    ensures k % 2 == 1
  {
    var m := DividesElim(k, b);
    if k % 2 == 0 { EvenProduct(m, k); }
  }

  lemma EvenProduct(m: int, k: int)
    requires k % 2 == 0
    ensures (m * k) % 2 == 0
  {
    var h := k / 2;
    assert m * k == 2 * (m * h);
  }

  /** A factor two on one side does not matter when the other side is odd. */
  lemma GcdDropTwo(a: nat, b: nat)
    requires b % 2 == 1
    ensures Gcd(2 * a, b) == Gcd(a, b)
  {
    forall k: int | k > 0
      ensures Divides(k, 2 * a) && Divides(k, b) <==> Divides(k, a) && Divides(k, b)
    {
      if Divides(k, b) {
        if Divides(k, 2 * a) {
          DivisorOfOdd(k, b);
          OddDivisor(k, a);
        }
        if Divides(k, a) { DividesProduct(k, a, 2); }
      }
    }
    SameDivisorsSameGcd(2 * a, b, a, b);
  }

  lemma {:induction false} GcdDropTwos(a: nat, b: nat, k: nat)
    requires b % 2 == 1
    ensures a * Pow(2, k) >= 0 && Gcd(a * Pow(2, k), b) == Gcd(a, b)
  {
    if k != 0 {
      GcdDropTwos(a, b, k - 1);
      MulAssoc(a, 2, Pow(2, k - 1));
      MulAssoc(2, a, Pow(2, k - 1));
      GcdDropTwo(a * Pow(2, k - 1), b);
    }
  }

  /** Common factors come out. */
  lemma {:induction false} GcdScale(a: nat, b: nat, m: nat)
    requires m > 0
    ensures a * m >= 0 && b * m >= 0 && Gcd(a * m, b * m) == Gcd(a, b) * m
    decreases b
  {
    MulMono(a, 0, m);
    MulMono(b, 0, m);
    if b != 0 {
      var q, r := a / b, a % b;
      assert a == b * q + r;
      assert a * m == q * (b * m) + r * m;
      MulLess(r, b, m);
      MulMono(r, 0, m);
      MulMono(m, 1, b);
      DivModUnique(a * m, b * m, q, r * m);
      GcdScale(b, r, m);
    }
  }

  /** Halving one side of a coprime pair keeps it coprime. */
  lemma CoprimeHalf(a: nat, b: nat)
    requires Gcd(2 * a, b) == 1
    ensures Gcd(a, b) == 1
  {
    forall k: int | k > 0 && Divides(k, a) && Divides(k, b)
      ensures Divides(k, 2 * a) && Divides(k, b)
    {
      DividesProduct(k, a, 2);
    }
    GcdOneWay(a, b, 2 * a, b);
    GcdDivides(a, b);
    GcdDivides(2 * a, b);
    if Gcd(a, b) > 0 { DividesLeq(Gcd(a, b), 1); }
  }

  lemma CoprimeNotBothEven(a: nat, b: nat)
    requires Gcd(a, b) == 1
    ensures a % 2 == 1 || b % 2 == 1
  {
    if a % 2 == 0 && b % 2 == 0 {
      GcdGreatest(a, b, 2);
    }
  }

  /** Reducing an integer, of either sign, modulo n keeps its common divisors with n. */
  lemma GcdMod(a: int, n: nat)
    requires n > 0
    ensures Gcd(a % n, n) == Gcd(Abs(a), n)
  {
    var q, r := a / n, a % n;
    assert a == n * q + r;
    forall k: int | k > 0
      ensures Divides(k, r) && Divides(k, n) <==> Divides(k, Abs(a)) && Divides(k, n)
    {
      if Divides(k, n) {
        DividesProduct(k, n, q);
        if Divides(k, r) {
          DividesSum(k, n * q, r);
          DividesProduct(k, a, -1);
        }
        if Divides(k, Abs(a)) {
          DividesProduct(k, Abs(a), -1);
          DividesSum(k, a, n * q);
        }
      }
    }
    SameDivisorsSameGcd(r, n, Abs(a), n);
  }

  /** Only numbers coprime to n have an inverse modulo n. */
  lemma InverseMeansCoprime(a: int, x: int, n: nat)
    requires n > 0 && Cong(a * x, 1, n)
    ensures Gcd(Abs(a), n) == 1
  {
    GcdDivides(Abs(a), n);
    var g := Gcd(Abs(a), n);
    var k := CongElim(a * x, 1, n);
    hide Cong, Gcd;
    assert Divides(g, a * x) by {
      DividesProduct(g, Abs(a), if a < 0 then -x else x);
      if a < 0 { assert Abs(a) * -x == a * x; }
    }
    assert Divides(g, k * n) by { DividesProduct(g, n, k); }
    hide Divides;
    DividesSum(g, a * x, k * n);
    DividesLeq(g, 1);
  }

  // ---------- divisors of a power ----------

  /** A divisor of a product that shares nothing with one factor divides the other. */
  lemma CoprimeFactor(m: nat, b: nat, c: nat)
    requires m > 0 && Gcd(b, m) == 1
    ensures b * c >= 0 && (Divides(m, b * c) <==> Divides(m, c))
  {
    hide *;
    MulMono(c, 0, b);
    if Divides(m, c) {
      DividesProduct(m, c, b);
    } else if Divides(m, b * c) {
      if c == 0 {
        DividesIntro(m, 0, 0);
      } else {
        GcdScale(b, m, c);
        DividesIntro(m, m * c, c);
        GcdGreatest(b * c, m * c, m);
      }
    }
  }

  /** Divided by its common divisor with a, at most e times over, n comes down to 1. */
  ghost predicate Exhausts(n: nat, a: nat, e: nat)
    requires n > 0
    decreases e
  {
    n == 1 || (e > 0 && Exhausts(Cofactor(n, a), a, e - 1))
  }

  /** What is left of n without its common divisor with a. */
  ghost function Cofactor(n: nat, a: nat): (m: nat)
    requires n > 0
    ensures 0 < m && n == m * Gcd(a, n)
  {
    CofactorIs(n, a);
    n / Gcd(a, n)
  }

  lemma CofactorIs(n: nat, a: nat)
    requires n > 0
    ensures Gcd(a, n) > 0 && n / Gcd(a, n) > 0 && n == (n / Gcd(a, n)) * Gcd(a, n)
  {
    GcdDivides(a, n);
    var g := Gcd(a, n);
    var m := DividesElim(g, n);
    DivModUnique(n, g, m, 0);
    if m <= 0 { MulMono(g, m, 0); }
  }

  /** The two numbers without their common divisor are coprime. */
  lemma CofactorsCoprime(n: nat, a: nat) returns (b: nat)
    requires n > 0
    ensures a == b * Gcd(a, n) && Gcd(b, Cofactor(n, a)) == 1
  {
    var g, m := Gcd(a, n), Cofactor(n, a);
    GcdDivides(a, n);
    var k := DividesElim(g, a);
    if k < 0 { MulMono(g, k, -1); }
    b := k;
    GcdScale(b, m, g);
    hide Gcd, Cofactor;
    MulStrict(g, 0, Gcd(b, m));
    MulStrict(g, Gcd(b, m) - 1, 1);
  }

  /** A factor cancelled on both sides. */
  lemma CancelFactor(g: nat, m: nat, c: int)
    requires g > 0 && m > 0
    ensures m * g > 0 && (Divides(m * g, c * g) <==> Divides(m, c))
  {
    MulStrict(g, 0, m);
    MulMono(m, 1, g);
    if Divides(m * g, c * g) {
      var k := DividesElim(m * g, c * g);
      MulAssoc(k, m, g);
      EqualFactors(c, k * m, g);
      DividesIntro(m, c, k);
    }
    if Divides(m, c) {
      var k := DividesElim(m, c);
      MulAssoc(k, m, g);
      DividesIntro(m * g, c * g, k);
    }
  }

  lemma EqualFactors(x: int, y: int, g: int)
    requires g > 0 && x * g == y * g
    ensures x == y
  {
    if x < y { MulLess(x, y, g); }
    if y < x { MulLess(y, x, g); }
  }

  /** Whether n divides a power of a shows without computing the power. */
  lemma {:induction false} DividesPower(n: nat, a: nat, e: nat)
    requires n > 0
    ensures Pow(a, e) >= 0 && (Divides(n, Pow(a, e)) <==> Exhausts(n, a, e))
    decreases e
  {
    if e == 0 {
      if Divides(n, 1) { DividesLeq(n, 1); }
      DividesIntro(1, 1, 1);
    } else {
      var g, m := Gcd(a, n), Cofactor(n, a);
      var b := CofactorsCoprime(n, a);
      var p := Pow(a, e - 1);
      CofactorIs(n, a);
      DividesPower(m, a, e - 1);
      MulMono(a, 0, p);
      CoprimeFactor(m, b, p);
      CancelFactor(g, m, b * p);
      assert a * p == (b * p) * g by { Reorder(b, g, p); }
      if n == 1 { DividesIntro(1, a * p, a * p); }
      hide Gcd, Cofactor, Divides;
    }
  }

  lemma Reorder(b: int, g: int, p: int)
    ensures (b * g) * p == (b * p) * g
  {}

  lemma {:induction false} CoprimeNeverExhausts(n: nat, a: nat, e: nat)
    requires n > 1 && Gcd(a, n) == 1
    ensures !Exhausts(n, a, e)
    decreases e
  {
    if e > 0 {
      assert Cofactor(n, a) == n;
      CoprimeNeverExhausts(n, a, e - 1);
    }
  }

  /** A divisor of the base itself. */
  lemma DivisorExhausts(n: nat, a: nat, e: nat)
    requires n > 0 && e > 0 && Divides(n, a)
    ensures Exhausts(n, a, e)
  {
    DividesIntro(n, n, 1);
    GcdGreatest(a, n, n);
    GcdDivides(a, n);
    DividesLeq(Gcd(a, n), n);
    DividesLeq(n, Gcd(a, n));
    EqualFactors(Cofactor(n, a), 1, n);
  }

  /** No square but 1 divides the number. */
  ghost predicate SquareFree(n: nat) {
    n > 0 && forall d: int :: d > 1 && Divides(d, n) ==> !Divides(d, n / d)
  }

  /** A number without square divisors divides a power exactly when it divides the base. */
  lemma SquareFreeExhausts(n: nat, a: nat, e: nat)
    requires SquareFree(n) && e > 0
    ensures Exhausts(n, a, e) <==> Divides(n, a)
  {
    if Divides(n, a) {
      DivisorExhausts(n, a, e);
    } else if n > 1 {
      var g, m := Gcd(a, n), Cofactor(n, a);
      CofactorIs(n, a);
      GcdDivides(a, n);
      RestCoprime(n, a);
      if m > 1 { CoprimeNeverExhausts(m, a, e - 1); }
    } else {
      DividesIntro(1, a, a);
    }
  }

  lemma RestCoprime(n: nat, a: nat)
    requires SquareFree(n)
    ensures Gcd(a, Cofactor(n, a)) == 1
  {
    var g, m := Gcd(a, n), Cofactor(n, a);
    var h := Gcd(a, m);
    GcdDivides(a, m);
    CofactorIs(n, a);
    DividesProduct(h, m, g);
    GcdGreatest(a, n, h);
    var j := DividesElim(h, m);
    var k := DividesElim(h, g);
    if h > 1 {
      Squared(j, k, h);
      DivModUnique(n, h, (j * k) * h, 0);
      DividesIntro(h, n / h, j * k);
    }
  }

  lemma Squared(j: int, k: int, h: int)
    ensures (j * h) * (k * h) == ((j * k) * h) * h
  {}
}
