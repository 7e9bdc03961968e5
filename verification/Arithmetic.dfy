/** Integer powers, Euclidean division and congruences, shared by the multi-precision modules. */
module Arithmetic {

  function Pow(x: int, n: nat): (r: int)
    ensures x >= 1 ==> r >= 1
  {
    if n == 0 then 1 else x * Pow(x, n - 1)
  }

  function Abs(x: int): nat {
    if x < 0 then -x else x
  }

  lemma {:induction false} PowAdd(x: int, m: nat, n: nat)
    ensures Pow(x, m + n) == Pow(x, m) * Pow(x, n)
  {
    if m != 0 {
      PowAdd(x, m - 1, n);
      MulAssoc(x, Pow(x, m - 1), Pow(x, n));
    }
  }

  lemma {:induction false} PowMul(x: int, m: nat, n: nat)
    ensures Pow(Pow(x, m), n) == Pow(x, m * n)
  {
    if n == 0 {
      assert m * n == 0;
    } else {
      PowMul(x, m, n - 1);
      PowAdd(x, m, m * (n - 1));
      assert m * n == m + m * (n - 1);
    }
  }

  lemma {:induction false} PowMonotonic(x: int, m: nat, n: nat)
    requires x >= 1 && m <= n
    ensures Pow(x, m) <= Pow(x, n)
  {
    PowAdd(x, m, n - m);
    MulMono(Pow(x, m), 1, Pow(x, n - m));
  }

  lemma {:induction false} PowStrict(x: int, m: nat, n: nat)
    requires x >= 2 && Pow(x, m) < Pow(x, n)
    ensures m < n
  {
    if n <= m { PowMonotonic(x, n, m); }
  }

  // ---------- products ----------

  lemma MulAssoc(x: int, y: int, z: int)
    ensures x * (y * z) == (x * y) * z
  {}

  lemma MulMono(x: int, y: int, z: int)
    requires 0 <= x && y <= z
    ensures x * y <= x * z
  {}

  lemma MulStrict(x: int, y: int, z: int)
    requires 0 < x && x * y < x * z
    ensures y < z
  {
    if z <= y { MulMono(x, z, y); }
  }

  lemma MulLess(x: int, y: int, z: int)
    requires 0 < z && x < y
    ensures x * z < y * z
  {}

  /** Products grow with both factors. */
  lemma MulGrow(x: int, x': int, y: int, y': int)
    requires 0 <= x <= x' && 0 <= y <= y'
    ensures x * y <= x' * y'
  {
    MulMono(x, y, y');
    MulMono(y', x, x');
  }

  lemma MulSmall(x: int, m: int)
    requires 0 < m && -m < x * m < m
    ensures x == 0
  {
    if x >= 1 { MulMono(m, 1, x); }
    if x <= -1 { MulMono(m, x, -1); }
  }

  /** A digit `x` on top of a part below its weight stays below the next weight. */
  lemma DigitBelow(v: int, x: int, w: int, m: int)
    requires 0 <= v < w && 0 <= x < m
    ensures 0 <= v + x * w < m * w
  {
    MulMono(w, x + 1, m);
    MulMono(w, 0, x);
  }

  lemma Distribute(x: int, y: int, z: int)
    ensures x * (y + z) == x * y + x * z && (y + z) * x == y * x + z * x
    ensures x * (y - z) == x * y - x * z && (y - z) * x == y * x - z * x
  {}

  lemma DoubleIsEven(x: int, h: int)
    requires x == 2 * h
    ensures x % 2 == 0
  {}

  // ---------- quotient and remainder ----------

  lemma DivModUnique(x: int, m: int, q: int, r: int)
    requires m > 0 && x == q * m + r && 0 <= r < m
    ensures x / m == q && x % m == r
  {
    var q0, r0 := x / m, x % m;
    assert x == m * q0 + r0;
    assert (q - q0) * m == r0 - r;
    MulSmall(q - q0, m);
  }

  lemma DivBounds(x: int, m: int)
    requires m > 0
    ensures (x / m) * m <= x < (x / m + 1) * m
  {
    assert x == m * (x / m) + x % m;
  }

  /** Dividing twice is dividing by the product. */
  lemma DivDiv(x: nat, m: int, n: int)
    requires m > 0 && n > 0
    ensures m * n > 0 && (x / m) / n == x / (m * n)
  {
    var q, r := x / m, x % m;
    var q', r' := q / n, q % n;
    assert x == m * q + r && q == n * q' + r';
    MulMono(m, r', n - 1);
    MulMono(n, 1, m);
    calc {
      x;
      m * (n * q' + r') + r;
      q' * (m * n) + (m * r' + r);
    }
    DivModUnique(x, m * n, q', m * r' + r);
  }

  // ---------- congruence ----------

  predicate Cong(x: int, y: int, m: int)
    requires m > 0
  {
    (x - y) % m == 0
  }

  lemma CongIntro(x: int, y: int, m: int, k: int)
    requires m > 0 && x == y + k * m
    ensures Cong(x, y, m)
  {
    DivModUnique(x - y, m, k, 0);
  }

  lemma CongElim(x: int, y: int, m: int) returns (k: int)
    requires m > 0 && Cong(x, y, m)
    ensures x == y + k * m
  {
    k := (x - y) / m;
    assert x - y == m * k + (x - y) % m;
  }

  lemma CongRefl(x: int, m: int)
    requires m > 0
    ensures Cong(x, x, m)
  {
    CongIntro(x, x, m, 0);
  }

  lemma CongSym(x: int, y: int, m: int)
    requires m > 0 && Cong(x, y, m)
    ensures Cong(y, x, m)
  {
    var k := CongElim(x, y, m);
    CongIntro(y, x, m, -k);
  }

  lemma CongTrans(x: int, y: int, z: int, m: int)
    requires m > 0 && Cong(x, y, m) && Cong(y, z, m)
    ensures Cong(x, z, m)
  {
    var k := CongElim(x, y, m);
    var l := CongElim(y, z, m);
    CongIntro(x, z, m, k + l);
  }

  lemma CongAdd(x: int, x': int, y: int, y': int, m: int)
    requires m > 0 && Cong(x, x', m) && Cong(y, y', m)
    ensures Cong(x + y, x' + y', m) && Cong(x - y, x' - y', m)
  {
    var k := CongElim(x, x', m);
    var l := CongElim(y, y', m);
    CongIntro(x + y, x' + y', m, k + l);
    CongIntro(x - y, x' - y', m, k - l);
  }

  lemma CongMul(x: int, x': int, y: int, y': int, m: int)
    requires m > 0 && Cong(x, x', m) && Cong(y, y', m)
    ensures Cong(x * y, x' * y', m)
  {
    var k := CongElim(x, x', m);
    var l := CongElim(y, y', m);
    calc {
      x * y;
      (x' + k * m) * (y' + l * m);
      x' * y' + (k * y' + l * x' + k * l * m) * m;
    }
    CongIntro(x * y, x' * y', m, k * y' + l * x' + k * l * m);
  }

  lemma {:induction false} CongPow(x: int, y: int, n: nat, m: int)
    requires m > 0 && Cong(x, y, m)
    ensures Cong(Pow(x, n), Pow(y, n), m)
  {
    if n == 0 {
      CongRefl(1, m);
    } else {
      CongPow(x, y, n - 1, m);
      CongMul(x, y, Pow(x, n - 1), Pow(y, n - 1), m);
    }
  }

  lemma CongMod(x: int, m: int)
    requires m > 0
    ensures Cong(x, x % m, m) && Cong(x % m, x, m)
  {
    assert x == m * (x / m) + x % m;
    CongIntro(x, x % m, m, x / m);
    CongSym(x, x % m, m);
  }

  lemma CongUnique(x: int, y: int, m: int)
    requires 0 <= x < m && 0 <= y < m && Cong(x, y, m)
    ensures x == y
  {
    var k := CongElim(x, y, m);
    MulSmall(k, m);
  }

  lemma CongIsMod(x: int, y: int, m: int)
    requires 0 <= x < m && Cong(x, y, m)
    ensures x == y % m
  {
    CongMod(y, m);
    CongTrans(x, y, y % m, m);
    CongUnique(x, y % m, m);
  }

  /** Congruent numbers have the same remainder, and the other way round. */
  lemma CongSameMod(x: int, y: int, m: int)
    requires m > 0
    ensures Cong(x, y, m) <==> x % m == y % m
  {
    CongMod(x, m);
    CongMod(y, m);
    if Cong(x, y, m) {
      CongTrans(x % m, x, y, m);
      CongIsMod(x % m, y, m);
    }
    if x % m == y % m {
      CongTrans(x, x % m, y, m);
    }
  }

  /** A power of two can be cancelled modulo an odd number. */
  lemma {:induction false} CongCancelPow2(x: int, y: int, k: nat, m: int)
    requires m > 0 && m % 2 == 1 && Cong(x * Pow(2, k), y * Pow(2, k), m)
    ensures Cong(x, y, m)
  {
    if k != 0 {
      var h := Pow(2, k - 1);
      var w := CongElim(x * Pow(2, k), y * Pow(2, k), m);
      assert Pow(2, k) == 2 * h;
      hide Pow, Cong;
      CancelTwo(x, y, h, w, m);
      CongIntro(x * h, y * h, m, w / 2);
      CongCancelPow2(x, y, k - 1, m);
    }
  }

  lemma CancelTwo(x: int, y: int, h: int, w: int, m: int)
    requires m % 2 == 1 && x * (2 * h) == y * (2 * h) + w * m
    ensures x * h == y * h + (w / 2) * m
  {
    var m2, v := m / 2, w / 2;
    assert 2 * (x * h) == 2 * (y * h) + w * m;
    assert w * m == 2 * (w * m2) + w by { assert m == 2 * m2 + 1; }
    assert w == 2 * v;
    assert w * m == 2 * (v * m);
  }
}
