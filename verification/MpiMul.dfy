/** Baseline multiplication, built without a double-width integer type. */
module MpiMul {
  import opened Arithmetic
  import opened Limbs
  import opened MpiCore
  import opened MpiAddSub

  /** The product of two half limbs fits in a limb. */
  lemma HalfProduct(x: int, y: int)
    requires 0 <= x < HALF && 0 <= y < HALF
    ensures 0 <= x * y <= (HALF - 1) * (HALF - 1) < BASE
  {
    BaseFacts();
    MulGrow(x, HALF - 1, y, HALF - 1);
    MulMono(x, 0, y);
    MulGrow(HALF - 1, HALF, HALF - 1, HALF);
    Distribute(HALF, HALF - 1, 1);
    MulLess(HALF - 1, HALF, HALF - 1);
  }

  /** A double-limb accumulator `(low, high)` receiving one more limb. */
  function AddInto(acc: (Limb, Limb), x: Limb): (Limb, Limb) {
    var low := WrapAdd(acc.0, x);
    (low, WrapAdd(acc.1, Carry(low < x)))
  }

  function Double(acc: (Limb, Limb)): int {
    acc.0 + acc.1 * BASE
  }

  lemma AddIntoExact(acc: (Limb, Limb), x: Limb)
    requires Double(acc) + x < BASE * BASE
    ensures Double(AddInto(acc, x)) == Double(acc) + x
  {
    BaseFacts();
    if acc.0 + x >= BASE {
      var h: int := acc.1;
      Distribute(BASE, h, 1);
      if h + 1 >= BASE { MulMono(BASE, BASE, h + 1); }
    }
  }

  /**
    One multiply-and-accumulate step out of four half-limb products: `(low, carry)` of `s * b + c + d`.
    Every addition wraps at the limb and its carry is read off a comparison.
  */
  function MulAddCore(s: Limb, b: Limb, c: Limb, d: Limb): (Limb, Limb) {
    HalfSplit(s);
    HalfSplit(b);
    var s0, s1, b0, b1 := s % HALF, s / HALF, b % HALF, b / HALF;
    HalfProduct(s0, b1);
    HalfProduct(s0, b0);
    HalfProduct(s1, b0);
    HalfProduct(s1, b1);
    var rx: Limb, r0: Limb, ry: Limb, r1: Limb := s0 * b1, s0 * b0, s1 * b0, s1 * b1;
    var high := WrapAdd(WrapAdd(r1, ShiftRight(rx, BIH)), ShiftRight(ry, BIH));
    AddInto(AddInto(AddInto(AddInto((r0, high), ShiftLeft(rx, BIH)), ShiftLeft(ry, BIH)), c), d)
  }

  /** `r << BIH` keeps the low half of `r` in the high half of the limb. */
  lemma HighHalf(r: Limb)
    ensures ShiftLeft(r, BIH) == (r % HALF) * HALF && ShiftRight(r, BIH) == r / HALF
  {
    BaseFacts();
    HalfSplit(r);
    var q, t, h := r / HALF, r % HALF, HALF;
    calc {
      r * h;
      (q * h + t) * h;
      q * (h * h) + t * h;
    }
    MulMono(h, t + 1, h);
    MulMono(h, 0, t);
    Distribute(h, t, 1);
    DivModUnique(r * h, BASE, q, t * h);
  }

  lemma HalvesMultiply(s0: int, s1: int, b0: int, b1: int, h: int, qx: int, tx: int, qy: int, ty: int)
    requires s0 * b1 == qx * h + tx && s1 * b0 == qy * h + ty
    ensures (s1 * h + s0) * (b1 * h + b0) == (s1 * b1 + qx + qy) * (h * h) + tx * h + ty * h + s0 * b0
  {
    calc {
      (s1 * h + s0) * (b1 * h + b0);
      (s1 * b1) * (h * h) + (s0 * b1) * h + (s1 * b0) * h + s0 * b0;
      (s1 * b1) * (h * h) + (qx * h + tx) * h + (qy * h + ty) * h + s0 * b0;
      (s1 * b1 + qx + qy) * (h * h) + tx * h + ty * h + s0 * b0;
    }
  }

  lemma ProductRoom(s: int, b: int, c: int, d: int, m: int)
    requires 0 <= s < m && 0 <= b < m && 0 <= c < m && 0 <= d < m
    ensures 0 <= s * b + c + d < m * m
  {
    MulGrow(s, m - 1, b, m - 1);
    MulMono(s, 0, b);
    assert (m - 1) * (m - 1) == m * m - 2 * m + 1;
  }

  /** The wrapped additions lose nothing. */
  lemma CarriesFit(r0: Limb, r1: Limb, qx: Limb, qy: Limb, x: Limb, y: Limb, c: Limb, d: Limb)
    requires (r1 + qx + qy) * BASE + r0 + x + y + c + d < BASE * BASE
    ensures Double(AddInto(AddInto(AddInto(AddInto((r0, WrapAdd(WrapAdd(r1, qx), qy)), x), y), c), d))
         == (r1 + qx + qy) * BASE + r0 + x + y + c + d
  {
    BaseFacts();
    var t: int := r1 + qx + qy;
    if t >= BASE { MulMono(BASE, BASE, t); }
    var a0 := (r0, WrapAdd(WrapAdd(r1, qx), qy));
    assert Double(a0) == r0 + t * BASE;
    hide AddInto, Double, WrapAdd;
    AddIntoExact(a0, x);
    AddIntoExact(AddInto(a0, x), y);
    AddIntoExact(AddInto(AddInto(a0, x), y), c);
    AddIntoExact(AddInto(AddInto(AddInto(a0, x), y), c), d);
  }

  lemma MulAddCoreExact(s: Limb, b: Limb, c: Limb, d: Limb)
    ensures Double(MulAddCore(s, b, c, d)) == s * b + c + d
  {
    hide ShiftLeft, ShiftRight, WrapAdd, AddInto;
    HalfSplit(s);
    HalfSplit(b);
    var s0, s1, b0, b1 := s % HALF, s / HALF, b % HALF, b / HALF;
    HalfProduct(s0, b1);
    HalfProduct(s0, b0);
    HalfProduct(s1, b0);
    HalfProduct(s1, b1);
    var rx: Limb, r0: Limb, ry: Limb, r1: Limb := s0 * b1, s0 * b0, s1 * b0, s1 * b1;
    HighHalf(rx);
    HighHalf(ry);
    HalfSplit(rx);
    HalfSplit(ry);
    assert s * b == (r1 + rx / HALF + ry / HALF) * BASE + (rx % HALF) * HALF + (ry % HALF) * HALF + r0 by {
      BaseFacts();
      HalvesMultiply(s0, s1, b0, b1, HALF, rx / HALF, rx % HALF, ry / HALF, ry % HALF);
    }
    ProductRoom(s, b, c, d, BASE);
    CarriesFit(r0, r1, ShiftRight(rx, BIH), ShiftRight(ry, BIH), ShiftLeft(rx, BIH), ShiftLeft(ry, BIH), c, d);
  }

  /** One limb of the accumulation: limb `k` and the carry take up `x * b`. */
  lemma MulStep(q: seq<Limb>, i: nat, x: Limb, b: Limb, c: Limb)
    requires i < |q|
    ensures var r := MulAddCore(x, b, c, q[i]);
            Val(q[i := r.0]) + r.1 * Weight(i + 1) == Val(q) + c * Weight(i) + (x * b) * Weight(i)
  {
    hide Val, Weight, MulAddCore;
    MulAddCoreExact(x, b, c, q[i]);
    var r := MulAddCore(x, b, c, q[i]);
    StepUp(q, i, r.0, c, r.1, x * b);
  }

  lemma AccumulateStep(v: int, x: int, w: int, b: int)
    ensures (v + x * w) * b == v * b + (x * b) * w
  {}

  /** Adds `s[..n] * b` to D from limb `off` up; the carry ends inside D. */
  method MulHelper(n: nat, s: seq<Limb>, D: Mpi, off: nat, b: Limb)
    requires n <= |s| && off + n < |D.p|
    requires Val(D.p[off..]) + Val(s[..n]) * b < Weight(|D.p| - off)
    modifies D`p
    ensures |D.p| == old(|D.p|) && D.p[..off] == old(D.p[..off])
    ensures Val(D.p[off..]) == old(Val(D.p[off..])) + Val(s[..n]) * b
  {
    hide Val, Weight, MulAddCore;
    BaseFacts();
    ghost var v0, total := Val(D.p[off..]), Val(D.p[off..]) + Val(s[..n]) * b;
    var i, c: Limb := 0, 0;
    assert s[..0] == [] && Val([]) == 0 by { ValZero([]); }
    while i < n
      invariant 0 <= i <= n && |D.p| == old(|D.p|) && D.p[..off] == old(D.p[..off])
      invariant Val(D.p[off..]) + c * Weight(i) == v0 + Val(s[..i]) * b
    {
      ghost var q := D.p[off..];
      MulStep(q, i, s[i], b, c);
      ValPrefix(s, i);
      AccumulateStep(Val(s[..i]), s[i], Weight(i), b);
      var r := MulAddCore(s[i], b, c, D.p[off + i]);
      D.p := D.p[off + i := r.0];
      c := r.1;
      assert D.p[off..] == q[i := r.0];
      i := i + 1;
    }
    var first := true;
    while first || c != 0
      invariant 0 <= i <= |D.p| - off && |D.p| == old(|D.p|) && D.p[..off] == old(D.p[..off])
      invariant first ==> off + i < |D.p|
      invariant Val(D.p[off..]) + c * Weight(i) == total
      decreases |D.p| - off - i
    {
      ghost var q := D.p[off..];
      if !first {
        ValBound(q);
        MulMono(Weight(i), 1, c);
        WeightStrict(i, |q|);
      }
      var z: Limb := WrapAdd(D.p[off + i], c);
      StepUp(q, i, z, c, Carry(z < c), 0);
      D.p := D.p[off + i := z];
      c := Carry(z < c);
      assert D.p[off..] == q[i := z];
      i, first := i + 1, false;
    }
  }

  lemma ProductFits(a: nat, i: nat, b: nat, j: nat, n: nat)
    requires a < Weight(i) && b < Weight(j) && i + j <= n
    ensures a * b < Weight(n)
  {
    hide Weight;
    WeightAdd(i, j);
    WeightMono(i + j, n);
    assert Weight(i) >= 1;
    MulMono(a, b, Weight(j));
    MulLess(a, Weight(i), Weight(j));
  }

  lemma RowStep(a: int, x: int, v: int)
    ensures BASE * (a * v) + a * x == a * (x + BASE * v)
  {}

  lemma SignedProduct(s: Sign, t: Sign, a: nat, b: nat)
    ensures Signed(if s == t then 1 else -1, a * b) == Signed(s, a) * Signed(t, b)
  {
    MulMono(a, 0, b);
  }

  /** The row sums: every limb of `b` in turn, from the top, lands on limbs of X that are still zero. */
  method MulRows(X: Mpi, a: seq<Limb>, i: nat, b: seq<Limb>, n: nat)
    requires i <= |a| && n <= |b| && i + n <= |X.p| && 0 < |X.p|
    requires forall k :: 0 <= k < |X.p| ==> X.p[k] == 0
    modifies X`p
    ensures |X.p| == old(|X.p|) && X.Mag() == Val(a[..i]) * Val(b[..n])
  {
    hide Val, Weight;
    var j := n;
    ValZero(X.p);
    ValZero(X.p[n..]);
    ValZero(b[n..n]);
    assert b[n..n] == [];
    while j > 0
      invariant 0 <= j <= n && |X.p| == old(|X.p|)
      invariant forall k :: 0 <= k < j ==> X.p[k] == 0
      invariant Val(X.p[j..]) == Val(a[..i]) * Val(b[j..n])
    {
      ghost var q, row := X.p[j - 1..], b[j - 1..n];
      ValLow(q);
      assert q[1..] == X.p[j..] && q[0] == 0;
      ValLow(row);
      assert row[1..] == b[j..n];
      RowStep(Val(a[..i]), b[j - 1], Val(b[j..n]));
      ValBound(a[..i]);
      ValBound(row);
      ProductFits(Val(a[..i]), i, Val(row), n - j + 1, |X.p| - (j - 1));
      ghost var below := X.p[..j - 1];
      MulHelper(i, a, X, j - 1, b[j - 1]);
      assert forall k :: 0 <= k < j - 1 ==> X.p[k] == X.p[..j - 1][k] == below[k];
      j := j - 1;
    }
    assert X.p[0..] == X.p && b[0..n] == b[..n];
  }

  /** X = A * B, under every aliasing of X, A and B. */
  method MulMpi(X: Mpi, A: Mpi, B: Mpi) returns (st: Status)
    modifies X
    ensures st == Ok || st == AllocFailed
    ensures st == Ok ==> X.Value() == old(A.Value()) * old(B.Value())
    ensures st == Ok && X != A && X != B ==> X.s == SignMul(A.s, B.s)
    ensures st == Ok ==> |X.p| >= old(|X.p|) && |X.p| > 0
  {
    hide Val, Weight;
    var L, R := A, B;
    if X == A {
      L := new Mpi();
      st := L.Copy(A);
      if st != Ok { return; }
    }
    if X == B {
      R := new Mpi();
      st := R.Copy(B);
      if st != Ok { return; }
    }
    ghost var a, b := A.Value(), B.Value();
    assert L.Value() == a && R.Value() == b && L != X && R != X;
    var i := SignificantLimbs(L.p);
    var j := SignificantLimbs(R.p);
    st := X.Grow(i + j);
    if st != Ok { return; }
    st := X.Lset(0);
    if st != Ok { return; }
    ValIsZero(X.p);
    MulRows(X, L.p, i, R.p, j);
    SignedProduct(L.s, R.s, Val(L.p), Val(R.p));
    X.s := if L.s == R.s then 1 else -1;
    return Ok;
  }

  /** X = A * b for an unsigned limb. */
  method MulInt(X: Mpi, A: Mpi, b: Limb) returns (st: Status)
    modifies X
    ensures st == Ok || st == AllocFailed
    ensures st == Ok ==> X.Value() == old(A.Value()) * b
    ensures st == Ok && X != A ==> X.s == A.s
    ensures st == Ok ==> |X.p| >= old(|X.p|) && |X.p| > 0
  {
    var B := new Mpi();
    B.p := [b];
    ValOne(b);
    st := MulMpi(X, A, B);
  }
}
