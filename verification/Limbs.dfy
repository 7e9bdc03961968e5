/** Machine limbs and the number that a little-endian limb vector denotes. */
module Limbs {
  import opened Arithmetic

  /** Bits in half a limb: the library is built with 32-bit or with 64-bit limbs. */
  type HalfWidth = x: nat | x == 16 || x == 32 witness 16

  const BIH: HalfWidth
  const BIL: nat := 2 * BIH
  const HALF: int := Pow(2, BIH)
  const BASE: int := Pow(2, BIL)

  type Limb = x: int | 0 <= x < BASE witness 0

  lemma BaseFacts()
    ensures BASE == HALF * HALF && HALF >= 65536 && BASE >= 65536 && HALF % 2 == 0
    ensures BASE == 2 * Pow(2, BIL - 1) && BASE == 4 * Pow(2, BIL - 2)
  {
    assert BASE == HALF * HALF by { PowAdd(2, BIH, BIH); }
    DoubleIsEven(HALF, Pow(2, BIH - 1));
    assert HALF >= 65536 by {
      PowMonotonic(2, 16, BIH);
      Pow2Sixteen();
    }
    assert Pow(2, BIL - 1) == 2 * Pow(2, BIL - 2);
    assert BASE >= 65536 by {
      hide Pow;
      MulMono(HALF, 1, HALF);
    }
  }

  lemma Pow2Sixteen()
    ensures Pow(2, 16) == 65536
  {
    assert Pow(2, 4) == 16;
    assert Pow(2, 8) == 16 * Pow(2, 4);
    assert Pow(2, 12) == 16 * Pow(2, 8);
  }

  // ---------- half limbs ----------

  lemma SplitInt(x: int, h: int)
    requires 0 < h && 0 <= x < h * h
    ensures 0 <= x / h < h && 0 <= x % h < h && x == (x / h) * h + x % h
  {
    DivBounds(x, h);
    if x / h >= h { MulMono(h, h, x / h); }
  }

  lemma HalfSplit(x: Limb)
    ensures 0 <= x / HALF < HALF && 0 <= x % HALF < HALF && x == (x / HALF) * HALF + x % HALF
  {
    assert BASE == HALF * HALF && HALF > 0 by { BaseFacts(); }
    SplitInt(x, HALF);
  }

  // ---------- wrapping limb arithmetic ----------

  function WrapAdd(x: Limb, y: Limb): Limb {
    if x + y < BASE then x + y else x + y - BASE
  }

  function WrapSub(x: Limb, y: Limb): Limb {
    if x >= y then x - y else x - y + BASE
  }

  function WrapMul(x: Limb, y: Limb): Limb {
    (x * y) % BASE
  }

  /** `x << n` and `x >> n` for a shift below the limb width. */
  function ShiftLeft(x: Limb, n: nat): Limb {
    (x * Pow(2, n)) % BASE
  }

  lemma QuotientBound(x: nat, w: int)
    requires w >= 1
    ensures 0 <= x / w <= x
  {
    var q := x / w;
    DivBounds(x, w);
    if q < 0 { MulMono(w, q + 1, 0); }
    MulMono(q, 1, w);
  }

  function ShiftRight(x: Limb, n: nat): (r: Limb)
    ensures r <= x
  {
    QuotientBound(x, Pow(2, n));
    x / Pow(2, n)
  }

  // ---------- value of a limb vector ----------

  /** The weight of limb `i`. */
  function Weight(i: nat): (r: int)
    ensures r >= 1
  {
    Pow(BASE, i)
  }

  function Val(p: seq<Limb>): (v: nat)
  {
    if |p| == 0 then 0
    else
      var n := |p| - 1;
      Val(p[..n]) + p[n] * Weight(n)
  }

  lemma WeightSucc(i: nat)
    ensures Weight(i + 1) == BASE * Weight(i)
  {}

  lemma WeightAdd(i: nat, j: nat)
    ensures Weight(i + j) == Weight(i) * Weight(j)
  {
    PowAdd(BASE, i, j);
  }

  lemma WeightIsPow2(i: nat)
    ensures Weight(i) == Pow(2, i * BIL)
  {
    PowMul(2, BIL, i);
    assert BIL * i == i * BIL;
  }

  lemma WeightMono(i: nat, j: nat)
    requires i <= j
    ensures Weight(i) <= Weight(j)
  {
    PowMonotonic(BASE, i, j);
  }

  lemma WeightStrict(i: nat, j: nat)
    requires Weight(i) < Weight(j)
    ensures i < j
  {
    if j <= i { WeightMono(j, i); }
  }

  lemma ValPrefix(p: seq<Limb>, i: nat)
    requires i < |p|
    ensures Val(p[..i + 1]) == Val(p[..i]) + p[i] * Weight(i)
  {
    assert p[..i + 1][..i] == p[..i];
  }

  lemma {:induction false} ValBound(p: seq<Limb>)
    ensures Val(p) < Weight(|p|)
  {
    if |p| != 0 {
      var n, x: int, w := |p| - 1, p[|p| - 1], Weight(|p| - 1);
      ValBound(p[..n]);
      WeightSucc(n);
      hide Weight;
      DigitBelow(Val(p[..n]), x, w, BASE);
    }
  }

  lemma {:induction false} ValConcat(p: seq<Limb>, q: seq<Limb>)
    ensures Val(p + q) == Val(p) + Weight(|p|) * Val(q)
  {
    hide Weight;
    if |q| == 0 {
      assert p + q == p;
    } else {
      var n, x: int := |q| - 1, q[|q| - 1];
      ValConcat(p, q[..n]);
      assert (p + q)[..|p| + n] == p + q[..n];
      WeightAdd(|p|, n);
      var w, v, y := Weight(|p|), Val(q[..n]), Weight(n);
      assert w * (v + x * y) == w * v + x * (w * y) by {
        Distribute(w, v, x * y);
        MulAssoc(x, w, y);
        MulAssoc(w, x, y);
      }
    }
  }

  lemma ValSplit(p: seq<Limb>, i: nat)
    requires i <= |p|
    ensures Val(p) == Val(p[..i]) + Weight(i) * Val(p[i..])
    ensures Val(p[..i]) < Weight(i)
  {
    assert p == p[..i] + p[i..];
    ValConcat(p[..i], p[i..]);
    ValBound(p[..i]);
  }

  lemma {:induction false} ValZero(p: seq<Limb>)
    requires forall i :: 0 <= i < |p| ==> p[i] == 0
    ensures Val(p) == 0
  {
    if |p| != 0 { ValZero(p[..|p| - 1]); }
  }

  /** High zero limbs do not count. */
  lemma ValTrim(p: seq<Limb>, i: nat)
    requires i <= |p| && forall k :: i <= k < |p| ==> p[k] == 0
    ensures Val(p) == Val(p[..i])
  {
    ValSplit(p, i);
    ValZero(p[i..]);
  }

  lemma ValTop(p: seq<Limb>, i: nat)
    requires i < |p| && p[i] != 0
    ensures Val(p) >= Weight(i)
  {
    ValSplit(p, i + 1);
    ValPrefix(p, i);
    MulMono(Weight(i), 1, p[i]);
    MulMono(Weight(i + 1), 0, Val(p[i + 1..]));
  }

  lemma ValIsZero(p: seq<Limb>)
    requires Val(p) == 0
    ensures forall i :: 0 <= i < |p| ==> p[i] == 0
  {
    forall i | 0 <= i < |p|
      ensures p[i] == 0
    {
      if p[i] != 0 { ValTop(p, i); }
    }
  }

  /** A value below `Weight(i)` has only zero limbs from `i` up. */
  lemma ValHighZero(p: seq<Limb>, i: nat)
    requires Val(p) < Weight(i)
    ensures forall k :: i <= k < |p| ==> p[k] == 0
    ensures i <= |p| ==> Val(p) == Val(p[..i])
  {
    forall k | i <= k < |p|
      ensures p[k] == 0
    {
      if p[k] != 0 {
        ValTop(p, k);
        WeightMono(i, k);
      }
    }
    if i <= |p| { ValTrim(p, i); }
  }

  lemma ValCons(x: Limb, p: seq<Limb>)
    ensures Val([x] + p) == x + BASE * Val(p)
  {
    ValConcat([x], p);
    ValPrefix([x], 0);
    assert [x][..1] == [x];
    assert Val([x][..0]) == 0;
  }

  lemma ValOne(x: Limb)
    ensures Val([x]) == x
  {
    ValCons(x, []);
    assert [x] + [] == [x];
  }

  /** The low limb is the remainder, the others the quotient, by the base. */
  lemma ValLow(p: seq<Limb>)
    requires |p| > 0
    ensures Val(p) == p[0] + BASE * Val(p[1..])
    ensures Val(p) % BASE == p[0] && Val(p) / BASE == Val(p[1..])
  {
    hide Val, Weight;
    assert p == [p[0]] + p[1..];
    ValCons(p[0], p[1..]);
    DivModUnique(Val(p), BASE, Val(p[1..]), p[0]);
  }

  lemma EvenPart(v: int, x: int, h: int)
    requires v == x + 2 * h
    ensures v % 2 == x % 2
  {}

  lemma ValParity(p: seq<Limb>)
    requires |p| > 0
    ensures Val(p) % 2 == p[0] % 2
  {
    hide Val, Weight;
    ValLow(p);
    var h, v, x: int := Pow(2, BIL - 1), Val(p[1..]), p[0];
    assert BASE == 2 * h;
    EvenPart(Val(p), x, h * v) by { MulAssoc(2, h, v); }
  }

  /** Limb `i` is a digit of the value. */
  lemma ValDigit(p: seq<Limb>, i: nat)
    requires i < |p|
    ensures p[i] == (Val(p) / Weight(i)) % BASE
    ensures Val(p[i..]) == Val(p) / Weight(i)
  {
    hide Val, Weight;
    ValSplit(p, i);
    DivModUnique(Val(p), Weight(i), Val(p[i..]), Val(p[..i]));
    ValLow(p[i..]);
  }

  lemma ValUpdate(p: seq<Limb>, i: nat, x: Limb)
    requires i < |p|
    ensures Val(p[i := x]) == Val(p) + (x - p[i]) * Weight(i)
  {
    hide Val, Weight;
    var q := p[i := x];
    ValSplit(p, i + 1);
    ValSplit(q, i + 1);
    ValPrefix(p, i);
    ValPrefix(q, i);
    assert q[i + 1..] == p[i + 1..];
    assert q[..i] == p[..i];
    var y: int, z: int, w := p[i], x, Weight(i);
    assert z * w - y * w == (z - y) * w;
  }

  /** Same length and same value means the same limbs. */
  lemma {:induction false} ValInjective(p: seq<Limb>, q: seq<Limb>)
    requires |p| == |q| && Val(p) == Val(q)
    ensures p == q
  {
    if |p| != 0 {
      ValLow(p);
      ValLow(q);
      ValInjective(p[1..], q[1..]);
      assert p == [p[0]] + p[1..];
      assert q == [q[0]] + q[1..];
    }
  }

  /** Equal limbs above `i` and a smaller limb at `i` make a smaller value. */
  lemma ValLess(p: seq<Limb>, q: seq<Limb>, i: nat)
    requires i < |p| && i < |q| && p[i] < q[i]
    requires Val(p[i + 1..]) == Val(q[i + 1..])
    ensures Val(p) < Val(q)
  {
    hide Val, Weight;
    ValSplit(p, i + 1);
    ValSplit(q, i + 1);
    ValPrefix(p, i);
    ValPrefix(q, i);
    ValBound(p[..i]);
    var x: int, y: int, w := p[i], q[i], Weight(i);
    MulMono(w, x + 1, y);
  }
}
