/** Multi-precision division: schoolbook long division with a two-limb trial divisor. */
module MpiDiv {
  import opened Arithmetic
  import opened Limbs
  import opened MpiCore
  import opened MpiShift
  import opened MpiAddSub
  import opened MpiMul
  import opened LimbDivision

  // ---------- the trial digit ----------

  /** The top three limbs of a number whose highest limb is `i`, padded with zero below limb 0. */
  function Top3(p: seq<Limb>, i: nat): int
    requires 1 <= i < |p|
  {
    p[i] * (BASE * BASE) + p[i - 1] * BASE + (if i < 2 then 0 else p[i - 2])
  }

  lemma Top3NonNegative(p: seq<Limb>, i: nat)
    requires 1 <= i < |p|
    ensures Top3(p, i) >= 0
  {
    MulMono(p[i], 0, BASE * BASE);
    MulMono(p[i - 1], 0, BASE);
  }

  function Top2(p: seq<Limb>, t: nat): int
    requires t < |p|
  {
    p[t] * BASE + (if t < 1 then 0 else p[t - 1])
  }

  lemma WindowInt(low: int, x: int, w: int, v: int, rest: int)
    requires 0 <= low < w && BASE * v == low + x * w + rest * w
    ensures (rest + x) * w <= BASE * v < (rest + x + 1) * w
  {
    Distribute(w, rest, x);
    Distribute(w, rest + x, 1);
  }

  /** Scaled by one limb, the low part of a number is its next limb and something below the weight. */
  lemma NextLimb(p: seq<Limb>, i: nat)
    requires i <= |p|
    ensures var x: int := if i == 0 then 0 else p[i - 1];
            x * Weight(i) <= BASE * Val(p[..i]) < x * Weight(i) + Weight(i)
  {
    hide Val, Weight;
    if i == 0 {
      ValZero(p[..0]);
      assert Weight(0) >= 1;
    } else {
      ValPrefix(p, i - 1);
      ValBound(p[..i - 1]);
      WeightSucc(i - 1);
      var x: int, w, l := p[i - 1], Weight(i - 1), Val(p[..i - 1]);
      Distribute(BASE, l, x * w);
      MulAssoc(x, BASE, w);
      MulAssoc(BASE, x, w);
      MulLess(l, w, BASE);
      MulMono(BASE, 0, l);
    }
  }

  lemma Top2Bounds(p: seq<Limb>, t: nat)
    requires t < |p| && Val(p) < Weight(t + 1)
    ensures Top2(p, t) * Weight(t) <= BASE * Val(p) < (Top2(p, t) + 1) * Weight(t)
  {
    hide Val, Weight;
    ValHighZero(p, t + 1);
    ValPrefix(p, t);
    NextLimb(p, t);
    var x: int, y: int, w, l := p[t], if t < 1 then 0 else p[t - 1], Weight(t), Val(p[..t]);
    assert BASE * (l + x * w) == BASE * l + (x * BASE) * w by {
      Distribute(BASE, l, x * w);
      MulAssoc(BASE, x, w);
    }
    WindowInt(BASE * l - y * w, y, w, Val(p), x * BASE);
  }

  lemma ThreeTerms(b: int, l: int, x: int, y: int, w: int)
    ensures b * (l + y * w + x * (b * w)) == b * l + (x * (b * b) + y * b) * w
  {}

  lemma Top3Bounds(p: seq<Limb>, i: nat)
    requires 1 <= i < |p| && Val(p) < Weight(i + 1)
    ensures Top3(p, i) * Weight(i - 1) <= BASE * Val(p) < (Top3(p, i) + 1) * Weight(i - 1)
  {
    hide Val, Weight;
    ValHighZero(p, i + 1);
    ValPrefix(p, i);
    ValPrefix(p, i - 1);
    NextLimb(p, i - 1);
    WeightSucc(i - 1);
    var x: int, y: int, z: int, w, l := p[i], p[i - 1], if i < 2 then 0 else p[i - 2], Weight(i - 1), Val(p[..i - 1]);
    assert BASE * (l + y * w + x * (BASE * w)) == BASE * l + (x * (BASE * BASE) + y * BASE) * w by {
      ThreeTerms(BASE, l, x, y, w);
    }
    WindowInt(BASE * l - z * w, z, w, Val(p), x * (BASE * BASE) + y * BASE);
  }

  /** `q` is the largest digit whose multiple of the two-limb divisor does not exceed the three-limb dividend. */
  ghost predicate IsTrialDigit(q: int, y2: int, top: int) {
    0 <= q < BASE && q * y2 <= top && (q == BASE - 1 || top < (q + 1) * y2)
  }

  lemma TrialNotLow(v: int, d: int, w: int, q: int, y2: int, top: int, b: int)
    requires b >= 1 && w >= 1 && q >= 0 && top < (q + 1) * y2
    requires b * v < (top + 1) * w && y2 * w <= b * d
    ensures v < (q + 1) * d
  {
    var s := (q + 1) * y2;
    assert (top + 1) * w <= s * w by { MulMono(w, top + 1, s); }
    assert s * w == (q + 1) * (y2 * w) by { MulAssoc(q + 1, y2, w); }
    assert (q + 1) * (y2 * w) <= (q + 1) * (b * d) by { MulMono(q + 1, y2 * w, b * d); }
    assert (q + 1) * (b * d) == b * ((q + 1) * d) by { MulAssoc(q + 1, b, d); MulAssoc(b, q + 1, d); }
    MulStrict(b, v, (q + 1) * d);
  }

  lemma TrialNotHigh(v: int, d: int, w: int, q: int, y2: int, top: int, b: int)
    requires d >= w >= 1 && 0 <= q <= b && b >= 1 && q * y2 <= top
    requires top * w <= b * v && b * d < (y2 + 1) * w
    ensures q * d <= v + d
  {
    assert q * (b * d) <= (q * y2) * w + q * w by {
      MulMono(q, b * d, (y2 + 1) * w);
      Distribute(w, y2, 1);
      Distribute(q, y2 * w, w);
      MulAssoc(q, y2, w);
    }
    assert (q * y2) * w <= top * w by { MulMono(w, q * y2, top); }
    assert q * w <= b * d by { MulGrow(q, b, w, d); }
    assert q * (b * d) == b * (q * d) by { MulAssoc(q, b, d); MulAssoc(b, q, d); }
    assert b * v + b * d == b * (v + d) by { Distribute(b, v, d); }
    if q * d > v + d { MulLess(v + d, q * d, b); }
  }

  /**
    The trial digit against the full operands, both scaled by one limb: it is never below the true digit
    and at most one above it, so that subtracting and adding back once is enough.
  */
  lemma TrialIsNear(v: int, d: int, w: int, q: int, y2: int, top: int)
    requires d >= w >= 1 && 0 <= v < d * BASE && IsTrialDigit(q, y2, top)
    requires top * w <= BASE * v < (top + 1) * w && y2 * w <= BASE * d < (y2 + 1) * w
    ensures v < (q + 1) * d && q * d <= v + d
  {
    if q != BASE - 1 { TrialNotLow(v, d, w, q, y2, top, BASE); }
    TrialNotHigh(v, d, w, q, y2, top, BASE);
  }

  lemma ValTwo(p: seq<Limb>, x: Limb, y: Limb)
    requires |p| >= 2 && p[0] == x && p[1] == y && forall k :: 2 <= k < |p| ==> p[k] == 0
    ensures Val(p) == y * BASE + x
  {
    ValTrim(p, 2);
    assert p[..2] == [x] + [y];
    ValCons(x, [y]);
    ValOne(y);
  }

  lemma ValThree(p: seq<Limb>, x: Limb, y: Limb, z: Limb)
    requires |p| >= 3 && p[0] == x && p[1] == y && p[2] == z && forall k :: 3 <= k < |p| ==> p[k] == 0
    ensures Val(p) == z * (BASE * BASE) + y * BASE + x
  {
    hide Val, Weight;
    ValLow(p);
    ValTwo(p[1..], y, z);
    var z': int, y': int := z, y;
    Distribute(BASE, z' * BASE, y');
    MulAssoc(BASE, BASE, z');
  }

  /** No digit that passes the three-by-two test exceeds the quotient of the top two limbs by the top one. */
  lemma FirstTrialIsHigh(q: int, x: int, y: int, z: int, u: int, l: int)
    requires 0 <= q < BASE && 0 < u && 0 <= l < BASE && 0 <= y < BASE && 0 <= z < BASE
    requires q * (u * BASE + l) <= x * (BASE * BASE) + y * BASE + z
    ensures q * u <= x * BASE + y
  {
    var s := x * BASE + y;
    assert x * (BASE * BASE) + y * BASE == s * BASE by {
      MulAssoc(x, BASE, BASE);
      Distribute(BASE, x * BASE, y);
    }
    assert q * (u * BASE + l) == (q * u) * BASE + q * l by {
      Distribute(q, u * BASE, l);
      MulAssoc(q, u, BASE);
    }
    MulMono(q, 0, l);
    TrialCore(q * u, q * l, s, z, BASE);
  }

  lemma TrialCore(qu: int, ql: int, s: int, z: int, base: int)
    requires qu * base + ql <= s * base + z && ql >= 0 && z < base && base > 0
    ensures qu <= s
  {
    Distribute(base, s, 1);
    if qu >= s + 1 { MulMono(base, s + 1, qu); }
  }

  /** `p` with every limb cleared, then limbs 0.. set: what `lset(0)` and three stores leave. */
  method Load2(T: Mpi, x: Limb, y: Limb) returns (st: Status)
    requires |T.p| >= 2
    modifies T
    ensures st == Ok || st == AllocFailed
    ensures st == Ok ==> |T.p| == old(|T.p|) && T.Value() == y * BASE + x
  {
    st := T.Lset(0);
    if st != Ok { return; }
    ValIsZero(T.p);
    hide Val, Weight;
    T.p := T.p[0 := x];
    T.p := T.p[1 := y];
    ValTwo(T.p, x, y);
    return Ok;
  }

  method Load3(T: Mpi, x: Limb, y: Limb, z: Limb) returns (st: Status)
    requires |T.p| >= 3
    modifies T
    ensures st == Ok || st == AllocFailed
    ensures st == Ok ==> |T.p| == old(|T.p|) && T.Value() == z * (BASE * BASE) + y * BASE + x
  {
    st := T.Lset(0);
    if st != Ok { return; }
    ValIsZero(T.p);
    hide Val, Weight;
    T.p := T.p[0 := x];
    T.p := T.p[1 := y];
    T.p := T.p[2 := z];
    ValThree(T.p, x, y, z);
    return Ok;
  }

  /** The quotient of two limbs by one, or the largest digit if it is no digit. */
  ghost function Estimate(x: Limb, y: Limb, u: Limb): int
    requires u > 0
  {
    if x < u then (x * BASE + y) / u else BASE - 1
  }

  /** One of the divisor's two top bits is set. */
  ghost predicate TopHeavy(u: int) {
    BASE <= 4 * u
  }

  lemma EstimateBound(x: int, y: int, u: int, b: int)
    requires 0 <= x <= u < b && 0 <= y < b && 0 < u
    ensures var e := if x < u then (x * b + y) / u else b - 1;
      0 <= e < b && e * u <= x * b + y
  {
    var s := x * b + y;
    MulMono(b, 0, x);
    if x < u {
      DivBounds(s, u);
      MulMono(b, x + 1, u);
      Distribute(b, x, 1);
      if s / u >= b { MulMono(u, b, s / u); }
    } else {
      Distribute(u, b, -1);
    }
  }

  lemma NearTop(x: int, y: int, z: int, u: int, l: int, e: int, b: int)
    requires 0 <= z && 0 <= l <= b && 0 <= e <= b && b <= 4 * u && e * u <= x * b + y
    ensures (e - 4) * (u * b + l) <= (x * b + y) * b + z
  {
    var s, v, c := x * b + y, u * b + l, b * b;
    assert (e * u) * b <= s * b by { MulMono(b, e * u, s); }
    assert e * l <= c by { MulGrow(e, b, l, b); }
    assert c <= 4 * (u * b) by { MulMono(b, b, 4 * u); MulAssoc(4, u, b); }
    assert e * v == (e * u) * b + e * l by { Distribute(e, u * b, l); MulAssoc(e, u, b); }
    assert (e - 4) * v == e * v - 4 * v by { Distribute(v, e, 4); }
    NearEnough(e * v, v, (e * u) * b, e * l, s * b, u * b, c, l, z);
  }

  lemma NearEnough(ev: int, v: int, eub: int, el: int, sb: int, ub: int, c: int, l: int, z: int)
    requires ev == eub + el && v == ub + l && eub <= sb && el <= c && c <= 4 * ub && 0 <= l && 0 <= z
    ensures ev - 4 * v <= sb + z
  {}

  /** For a divisor with one of its two top bits set, the estimate is at most four above the trial digit. */
  lemma EstimateIsNear(x: Limb, y: Limb, z: Limb, u: Limb, l: Limb, q: int)
    requires 0 < u && x <= u && TopHeavy(u) && IsTrialDigit(q, u * BASE + l, (x * BASE + y) * BASE + z)
    ensures Estimate(x, y, u) - q <= 4
  {
    var e := Estimate(x, y, u);
    EstimateBound(x, y, u, BASE);
    NearTop(x, y, z, u, l, e, BASE);
    hide IsTrialDigit, Estimate;
    MulMono(BASE, 1, u);
    if e - q > 4 { TrialNotPassed(q, e - 4, u * BASE + l, (x * BASE + y) * BASE + z); }
  }

  lemma TrialNotPassed(q: int, k: int, y2: int, top: int)
    requires IsTrialDigit(q, y2, top) && q < k < BASE && y2 > 0
    ensures k * y2 > top
  {
    MulMono(y2, q + 1, k);
  }

  lemma QuotientIsHigh(s: int, u: int, k: int)
    requires u > 0 && k * u <= s
    ensures k <= s / u
  {
    DivBounds(s, u);
    if k > s / u { MulStrict(u, k, s / u + 1); }
  }

  /** The estimate from two limbs by one, saturated at the largest digit. */
  method FirstTrial(x: Limb, y: Limb, u: Limb) returns (q: Limb)
    requires u > 0
    ensures q == Estimate(x, y, u)
    ensures forall k: int :: 0 <= k < BASE && k * u <= x * BASE + y ==> k <= q
  {
    BaseFacts();
    if x >= u {
      return BASE - 1;
    }
    var r;
    q, r := IntDivInt(x, y, u);
    ghost var s := x * BASE + y;
    forall k: int | 0 <= k < BASE && k * u <= s
      ensures k <= q
    {
      QuotientIsHigh(s, u, k);
    }
  }

  /** The three-by-two test, computed on two scratch numbers. */
  method TestTrial(X: Mpi, Y: Mpi, T1: Mpi, T2: Mpi, i: nat, t: nat, q: Limb) returns (st: Status, ok: bool)
    requires T1 != T2 && T1 != X && T1 != Y && T2 != X && T2 != Y
    requires 1 <= i < |X.p| && t < |Y.p| && |T1.p| >= 2 && |T2.p| >= 3
    modifies T1, T2
    ensures st == Ok || st == AllocFailed
    ensures st == Ok ==> (ok <==> q * Top2(Y.p, t) <= Top3(X.p, i))
    ensures st == Ok ==> |T1.p| >= 2 && |T2.p| >= 3
  {
    hide Val, Weight;
    ok := false;
    st := Load2(T1, if t < 1 then 0 else Y.p[t - 1], Y.p[t]);
    if st != Ok { return; }
    st := MulInt(T1, T1, q);
    if st != Ok { return; }
    assert T1.Value() == q * Top2(Y.p, t);
    st := Load3(T2, if i < 2 then 0 else X.p[i - 2], X.p[i - 1], X.p[i]);
    if st != Ok { return; }
    var cmp := CmpMpi(T1, T2);
    ok := cmp <= 0;
  }

  method TrialDigit(X: Mpi, Y: Mpi, T1: Mpi, T2: Mpi, i: nat, t: nat) returns (st: Status, q: Limb)
    requires T1 != T2 && T1 != X && T1 != Y && T2 != X && T2 != Y
    requires 1 <= i < |X.p| && t < |Y.p| && Y.p[t] > 0 && |T1.p| >= 2 && |T2.p| >= 3
    modifies T1, T2
    ensures st == Ok || st == AllocFailed
    ensures st == Ok ==> IsTrialDigit(q, Top2(Y.p, t), Top3(X.p, i)) && |T1.p| >= 2 && |T2.p| >= 3
    ensures st == Ok && X.p[i] <= Y.p[t] && TopHeavy(Y.p[t]) ==> Estimate(X.p[i], X.p[i - 1], Y.p[t]) - q <= 4
  {
    hide Val, Weight, IsTrialDigit, NoneAbove, WrapSub, WrapAdd, Estimate;
    q := FirstTrial(X.p[i], X.p[i - 1], Y.p[t]);
    ghost var y2, top := Top2(Y.p, t), Top3(X.p, i);
    StartTrial(X.p, Y.p, i, t, q);
    hide Top2, Top3;
    q := WrapAdd(q, One());
    ghost var first := true;
    while true
      invariant |T1.p| >= 2 && |T2.p| >= 3
      invariant NoneAbove(WrapSub(q, One()), y2, top)
      invariant first || q > 0
      decreases first, q
    {
      PredIsSmaller(q);
      q := WrapSub(q, One());
      first := false;
      var ok;
      st, ok := TestTrial(X, Y, T1, T2, i, t, q);
      if st != Ok { return; }
      if ok {
        AcceptTrial(q, y2, top);
        NearTrial(X.p, Y.p, i, t, q);
        return;
      }
      assert top >= 0 by { Top3NonNegative(X.p, i); }
      RejectTrial(q, y2, top);
    }
  }

  lemma NearTrial(p: seq<Limb>, y: seq<Limb>, i: nat, t: nat, q: int)
    requires 1 <= i < |p| && t < |y| && y[t] > 0 && IsTrialDigit(q, Top2(y, t), Top3(p, i))
    ensures p[i] <= y[t] && TopHeavy(y[t]) ==> Estimate(p[i], p[i - 1], y[t]) - q <= 4
  {
    hide IsTrialDigit, Estimate, TopHeavy;
    MulAssoc(p[i], BASE, BASE);
    Distribute(BASE, p[i] * BASE, p[i - 1]);
    if p[i] <= y[t] && TopHeavy(y[t]) {
      EstimateIsNear(p[i], p[i - 1], if i < 2 then 0 else p[i - 2], y[t], if t < 1 then 0 else y[t - 1], q);
    }
  }

  lemma PredIsSmaller(q: Limb)
    ensures q > 0 ==> WrapSub(q, One()) < q
  {}

  /** The saturated two-by-one estimate, incremented and decremented again, passes over no admissible digit. */
  lemma StartTrial(p: seq<Limb>, y: seq<Limb>, i: nat, t: nat, q: Limb)
    requires 1 <= i < |p| && t < |y| && y[t] > 0
    requires forall k: int :: 0 <= k < BASE && k * y[t] <= p[i] * BASE + p[i - 1] ==> k <= q
    ensures NoneAbove(WrapSub(WrapAdd(q, One()), One()), Top2(y, t), Top3(p, i))
  {
    assert WrapSub(WrapAdd(q, One()), One()) == q;
    forall k: int | q < k < BASE
      ensures k * Top2(y, t) > Top3(p, i)
    {
      if k * Top2(y, t) <= Top3(p, i) {
        FirstTrialIsHigh(k, p[i], p[i - 1], if i < 2 then 0 else p[i - 2], y[t], if t < 1 then 0 else y[t - 1]);
      }
    }
  }

  function One(): Limb {
    BaseFacts();
    1
  }

  /** No digit above `q` passes the test. */
  ghost predicate NoneAbove(q: int, y2: int, top: int) {
    forall k: int :: q < k < BASE ==> k * y2 > top
  }

  lemma AcceptTrial(q: Limb, y2: int, top: int)
    requires NoneAbove(q, y2, top) && q * y2 <= top
    ensures IsTrialDigit(q, y2, top)
  {
    if q != BASE - 1 {
      assert (q + 1) * y2 > top;
    }
  }

  lemma RejectTrial(q: Limb, y2: int, top: int)
    requires NoneAbove(q, y2, top) && q * y2 > top >= 0
    ensures q > 0 && NoneAbove(WrapSub(q, One()), y2, top)
  {}

  // ---------- one quotient digit ----------

  /** The divisor aligned under the digit being computed. */
  ghost function Aligned(y: nat, i: nat, t: nat): int
    requires t < i
  {
    y * Weight(i - t - 1)
  }

  lemma AlignedFacts(y: seq<Limb>, i: nat, t: nat)
    requires t < i && t < |y| && Weight(t) <= Val(y) < Weight(t + 1)
    ensures var d := Aligned(Val(y), i, t);
            d >= Weight(i - 1) && d * BASE <= Weight(i + 1)
            && Top2(y, t) * Weight(i - 1) <= BASE * d < (Top2(y, t) + 1) * Weight(i - 1)
  {
    hide Val, Weight, Top2;
    var w, z, v, y2 := Weight(i - t - 1), Weight(t), Val(y), Top2(y, t);
    assert w >= 1 && z >= 1;
    assert Weight(i - 1) == z * w by { WeightAdd(t, i - t - 1); }
    assert z * w <= v * w by { MulMono(w, z, v); }
    assert (v * w) * BASE <= Weight(i + 1) by {
      WeightAdd(t + 1, i - t - 1);
      WeightSucc(i);
      MulLess(v, Weight(t + 1), w);
      MulMono(BASE, v * w, Weight(i));
    }
    Top2Bounds(y, t);
    assert y2 * (z * w) <= BASE * (v * w) by {
      MulMono(w, y2 * z, BASE * v);
      MulAssoc(y2, z, w);
      MulAssoc(BASE, v, w);
    }
    assert BASE * (v * w) < (y2 + 1) * (z * w) by {
      MulLess(BASE * v, (y2 + 1) * z, w);
      MulAssoc(y2 + 1, z, w);
      MulAssoc(BASE, v, w);
    }
  }

  /** The corrected trial digit against the whole dividend and divisor. */
  lemma TrialAgainstAll(x: seq<Limb>, y: seq<Limb>, i: nat, t: nat, q: Limb)
    requires t < i < |x| && t < |y| && Weight(t) <= Val(y) < Weight(t + 1)
    requires Val(x) < Aligned(Val(y), i, t) * BASE && IsTrialDigit(q, Top2(y, t), Top3(x, i))
    ensures Val(x) < (q + 1) * Aligned(Val(y), i, t)
    ensures q * Aligned(Val(y), i, t) <= Val(x) + Aligned(Val(y), i, t)
  {
    hide Val, Weight, Aligned, IsTrialDigit, Top2, Top3;
    AlignedFacts(y, i, t);
    Top3Bounds(x, i);
    assert Weight(i - 1) >= 1;
    TrialIsNear(Val(x), Aligned(Val(y), i, t), Weight(i - 1), q, Top2(y, t), Top3(x, i));
  }

  lemma AlignedIsShift(y: nat, q: int, i: nat, t: nat)
    requires t < i
    ensures (y * q) * Weight(i - t - 1) == q * Aligned(y, i, t)
  {
    MulAssoc(q, y, Weight(i - t - 1));
  }

  /** Loads T1 with `q` times the aligned divisor and subtracts it. */
  method SubtractMultiple(X: Mpi, Y: Mpi, T1: Mpi, i: nat, t: nat, q: Limb) returns (st: Status)
    requires T1 != X && T1 != Y && X != Y && t < i && Y.s == 1 && |X.p| > 0
    modifies X, T1
    ensures st == Ok || st == AllocFailed
    ensures st == Ok ==> X.Value() == old(X.Value()) - q * Aligned(Y.Mag(), i, t)
    ensures st == Ok ==> |X.p| >= old(|X.p|) && |T1.p| >= old(|T1.p|)
  {
    hide Val, Weight, Pow, Aligned;
    st := MulInt(T1, Y, q);
    if st != Ok { return; }
    MulMono(q, 0, Y.Mag());
    st := LimbsLeft(T1, i - t - 1);
    if st != Ok { return; }
    AlignedIsShift(Y.Mag(), q, i, t);
    st := SubMpi(X, X, T1);
  }

  /** Adds the aligned divisor back once. */
  method AddBack(X: Mpi, Y: Mpi, T1: Mpi, i: nat, t: nat) returns (st: Status)
    requires T1 != X && T1 != Y && X != Y && t < i && Y.s == 1 && |X.p| > 0 && |Y.p| > 0
    modifies X, T1
    ensures st == Ok || st == AllocFailed
    ensures st == Ok ==> X.Value() == old(X.Value()) + Aligned(Y.Mag(), i, t)
    ensures st == Ok ==> |X.p| >= old(|X.p|) && |T1.p| >= old(|T1.p|)
  {
    hide Val, Weight, Pow, Aligned;
    st := T1.Copy(Y);
    if st != Ok { return; }
    st := LimbsLeft(T1, i - t - 1);
    if st != Ok { return; }
    AlignedIsShift(Y.Mag(), 1, i, t);
    st := AddMpi(X, X, T1);
  }

  lemma BitLenExists(v: nat)
    ensures exists r: nat :: IsBitLen(v, r)
  {
    var r := 0;
    PowZero();
    if v != 0 {
      r := FindBitLen(v);
    }
    assert IsBitLen(v, r);
  }

  lemma FindBitLen(v: nat) returns (r: nat)
    requires v > 0
    ensures IsBitLen(v, r)
  {
    if v == 1 {
      r := 1;
      PowZero();
      assert Pow(2, 1) == 2;
    } else {
      var q := FindBitLen(v / 2);
      r := q + 1;
      PowZero();
      assert q > 0;
      assert Pow(2, q + 1) == 2 * Pow(2, q) && Pow(2, q) == 2 * Pow(2, q - 1);
    }
  }

  lemma AfterSubtract(v: int, d: int, q: int)
    requires v < (q + 1) * d && q * d <= v + d
    ensures -d <= v - q * d < d
    ensures v - q * d < 0 && v >= 0 ==> v - q * d + d == v - (q - 1) * d && q != 0
  {
    Distribute(d, q, 1);
  }

  /** One digit: trial, subtract, and at most one add-back. The remainder drops below the aligned divisor. */
  method DivDigit(X: Mpi, Y: Mpi, T1: Mpi, T2: Mpi, i: nat, t: nat) returns (st: Status, q: Limb)
    requires T1 != T2 && T1 != X && T1 != Y && T2 != X && T2 != Y && X != Y && Y.s == 1
    requires t < i < |X.p| && t < |Y.p| && Weight(t) <= Y.Mag() < Weight(t + 1)
    requires |T1.p| >= 2 && |T2.p| >= 3
    requires 0 <= X.Value() < Aligned(Y.Mag(), i, t) * BASE
    modifies X, T1, T2
    ensures st == Ok || st == AllocFailed
    ensures st == Ok ==> |X.p| >= old(|X.p|) && |T1.p| >= 2 && |T2.p| >= 3
    ensures st == Ok ==> old(X.Value()) == q * Aligned(Y.Mag(), i, t) + X.Value()
    ensures st == Ok ==> 0 <= X.Value() < Aligned(Y.Mag(), i, t)
  {
    ghost var d, v := Aligned(Y.Mag(), i, t), X.Value();
    hide Val, Weight, Pow, Aligned, IsTrialDigit, Top2, Top3;
    assert Y.p[t] > 0 by { TopLimbSet(Y.p, t); }
    st, q := TrialDigit(X, Y, T1, T2, i, t);
    if st != Ok { return; }
    TrialAgainstAll(X.p, Y.p, i, t, q);
    AfterSubtract(v, d, q);
    st := SubtractMultiple(X, Y, T1, i, t, q);
    if st != Ok { return; }
    BaseFacts();
    var neg := CmpInt(X, 0);
    if neg < 0 {
      st := AddBack(X, Y, T1, i, t);
      if st != Ok { return; }
      q := q - 1;
    }
  }

  lemma TopLimbSet(p: seq<Limb>, t: nat)
    requires t < |p| && Weight(t) <= Val(p) < Weight(t + 1)
    ensures p[t] > 0
  {
    hide Val, Weight;
    ValHighZero(p, t + 1);
    ValPrefix(p, t);
    ValBound(p[..t]);
  }

  // ---------- normalisation ----------

  lemma BitLenScaled(v: nat, r: nat, k: nat)
    requires IsBitLen(v, r) && v > 0
    ensures IsBitLen(v * Pow(2, k), r + k)
  {
    hide Pow;
    if r == 0 { assert false by { PowZero(); } }
    PowAdd(2, r, k);
    PowAdd(2, r - 1, k);
    ScaledBetween(v, Pow(2, r), Pow(2, r - 1), Pow(2, k));
    assert r - 1 + k == r + k - 1;
  }

  lemma ScaledBetween(v: int, x: int, y: int, w: int)
    requires w > 0 && y <= v < x
    ensures y * w <= v * w < x * w
  {
    MulLess(v, x, w);
    MulMono(w, y, v);
  }

  /** No high zero limbs. */
  predicate Exact(p: seq<Limb>) {
    |p| > 0 && p[|p| - 1] != 0
  }

  lemma ExactLimbs(p: seq<Limb>, r: nat)
    requires Exact(p) && IsBitLen(Val(p), r)
    ensures BitsToLimbs(r) == |p|
  {
    var n := |p| - 1;
    ValTop(p, n);
    ValBound(p);
    WeightIsPow2(n);
    WeightIsPow2(n + 1);
    if r <= n * BIL { PowMonotonic(2, r, n * BIL); }
    if r > (n + 1) * BIL { PowMonotonic(2, (n + 1) * BIL, r - 1); }
    hide Val, Weight, Pow;
    BitsFit(r, n);
    BitsFit(r, n + 1);
  }

  /** A bit length one short of a limb boundary. */
  lemma NearlyFull(r: nat, k: nat)
    requires k == (if r % BIL < BIL - 1 then BIL - 1 - r % BIL else 0)
    ensures BitsToLimbs(r + k) > 0 && r + k == (BitsToLimbs(r + k) - 1) * BIL + (BIL - 1)
    ensures BitsToLimbs(r) <= BitsToLimbs(r + k) && k < BIL
  {
    LastOfBlock(r, k, BIL);
    assert BitsToLimbs(r + k) == r / BIL + 1;
  }

  lemma LastOfBlock(r: nat, k: nat, w: int)
    requires w >= 2 && k == (if r % w < w - 1 then w - 1 - r % w else 0)
    ensures (r + k) / w == r / w && (r + k) % w == w - 1 && r + k == (r / w) * w + (w - 1) && k < w
  {
    var q := r / w;
    assert r == w * q + r % w;
    DivModUnique(r + k, w, q, w - 1);
  }

  lemma AtMostOneMore(r: nat, k: nat)
    requires k < BIL
    ensures BitsToLimbs(r + k) <= BitsToLimbs(r) + 1
  {
    var n := BitsToLimbs(r);
    BitsFit(r, n);
    Distribute(BIL, n, 1);
    BitsFit(r + k, n + 1);
  }

  /** Shifts both operands until the divisor's top bit is one place below the top of its limb. */
  method Normalise(X: Mpi, Y: Mpi) returns (st: Status, k: nat)
    requires X != Y && Exact(X.p) && Exact(Y.p) && Y.Mag() <= X.Mag()
    modifies X`p, Y`p
    ensures st == Ok || st == AllocFailed
    ensures st == Ok ==> X.Mag() == old(X.Mag()) * Pow(2, k) && Y.Mag() == old(Y.Mag()) * Pow(2, k)
    ensures st == Ok ==> 0 < |Y.p| <= |X.p| <= old(|X.p|) + 1
    ensures st == Ok ==> IsBitLen(Y.Mag(), (|Y.p| - 1) * BIL + (BIL - 1))
  {
    hide Val, Weight, Pow, IsBitLen, BitsToLimbs;
    var r := BitLen(Y);
    ghost var rx := FindLength(X.Mag());
    ExactLimbs(Y.p, r);
    ExactLimbs(X.p, rx);
    assert Y.Mag() > 0 by { ExactIsPositive(Y.p); }
    BitLenOrder(Y.Mag(), r, X.Mag(), rx);
    k := r % BIL;
    k := if k < BIL - 1 then BIL - 1 - k else 0;
    NearlyFull(r, k);
    AtMostOneMore(rx, k);
    BitLenScaled(Y.Mag(), r, k);
    if k > 0 {
      st := ShiftL(X, k);
      if st != Ok { return; }
      assert |X.p| == Max(old(|X.p|), BitsToLimbs(rx + k));
      st := ShiftL(Y, k);
      if st != Ok { return; }
      assert |Y.p| == Max(old(|Y.p|), BitsToLimbs(r + k));
      BitsMono(r + k, rx + k);
    } else {
      PowZero();
      BitsMono(r, rx);
      st := Ok;
    }
  }

  lemma BitsMono(r: nat, q: nat)
    requires r <= q
    ensures BitsToLimbs(r) <= BitsToLimbs(q)
  {
    BitsFit(q, 0);
    BitsFit(r, BitsToLimbs(q));
  }

  lemma ExactIsPositive(p: seq<Limb>)
    requires Exact(p)
    ensures Val(p) > 0
  {
    ValTop(p, |p| - 1);
    assert Weight(|p| - 1) >= 1;
  }

  lemma FindLength(v: nat) returns (r: nat)
    ensures IsBitLen(v, r)
  {
    BitLenExists(v);
    r :| IsBitLen(v, r);
  }

  lemma BitLenOrder(v: nat, r: nat, u: nat, q: nat)
    requires IsBitLen(v, r) && IsBitLen(u, q) && v <= u
    ensures r <= q
  {
    if q < r { PowMonotonic(2, q, r - 1); }
  }

  // ---------- the top digit ----------

  lemma QuarterInt(y: int, z: int, h: int, w: int, c: int)
    requires z * h <= y && z >= 0 && h >= 0 && w >= 0 && c >= 4
    ensures (4 * h) * (z * w) <= c * (y * w)
  {
    assert (z * h) * w <= y * w by { MulMono(w, z * h, y); }
    assert (4 * h) * (z * w) == 4 * ((z * h) * w) by {
      MulAssoc(4, h, z * w);
      MulAssoc(h, z, w);
    }
    assert 0 <= (z * h) * w by { MulMono(z, 0, h); MulMono(w, 0, z * h); }
    assert 4 * (y * w) <= c * (y * w) by { MulMono(y * w, 4, c); }
  }

  /** At least a quarter of the limb is used, so the top digit is below four. */
  lemma TopDigitSmall(y: nat, t: nat, n: nat, c: int, x: int)
    requires IsBitLen(y, t * BIL + (BIL - 1)) && t <= n && x < Weight(n + 1)
    requires c >= 0 && c * (y * Weight(n - t)) <= x
    ensures c < 4
  {
    if c >= 4 {
      var h, w, z := Pow(2, BIL - 2), Weight(n - t), Weight(t);
      assert y >= z * h by {
        PowAdd(2, t * BIL, BIL - 2);
        WeightIsPow2(t);
      }
      assert Weight(n) == z * w by { WeightAdd(t, n - t); }
      assert Weight(n + 1) == BASE * Weight(n);
      assert BASE == 4 * h by { BaseFacts(); }
      assert z >= 1 && h >= 1 && w >= 1;
      hide Pow, Weight;
      QuarterInt(y, z, h, w, c);
    }
  }

  /** Z holding `c` at limb `m` and zero elsewhere. */
  lemma OneLimb(p: seq<Limb>, m: nat)
    requires m < |p| && forall k :: 0 <= k < |p| && k != m ==> p[k] == 0
    ensures Val(p) == p[m] * Weight(m)
  {
    hide Val, Weight;
    ValTrim(p, m + 1);
    ValPrefix(p, m);
    ValZero(p[..m]);
  }

  lemma NextMultiple(c: int, d: int)
    ensures (c + 1) * d == c * d + d
  {}

  /** Counts how often the fully shifted divisor goes into the dividend. */
  method CountTop(X: Mpi, Y: Mpi, Z: Mpi, m: nat) returns (st: Status)
    requires X != Y && Z != X && Z != Y && m < |Z.p|
    requires X.Value() >= 0 && Y.Value() > 0 && |X.p| > 0 && |Y.p| > 0
    requires forall k :: 0 <= k < |Z.p| ==> Z.p[k] == 0
    requires forall c: int :: c >= 0 && c * Y.Value() <= X.Value() ==> c < 4
    modifies X, Z`p
    ensures st == Ok || st == AllocFailed
    ensures |Z.p| == old(|Z.p|)
    ensures st == Ok ==> forall k :: 0 <= k < |Z.p| && k != m ==> Z.p[k] == 0
    ensures st == Ok ==> old(X.Value()) == Z.p[m] * Y.Value() + X.Value() && 0 <= X.Value() < Y.Value()
    ensures st == Ok ==> |X.p| >= old(|X.p|)
  {
    hide Val, Weight;
    BaseFacts();
    ghost var x, y := X.Value(), Y.Value();
    var cmp := CmpMpi(X, Y);
    while cmp >= 0
      invariant |Z.p| == old(|Z.p|) && |X.p| >= old(|X.p|)
      invariant forall k :: 0 <= k < |Z.p| && k != m ==> Z.p[k] == 0
      invariant x == Z.p[m] * y + X.Value() && X.Value() >= 0 && Y.Value() == y
      invariant cmp == Sgn(X.Value() - Y.Value())
      decreases X.Value()
    {
      NextMultiple(Z.p[m], y);
      ghost var c: int := Z.p[m] + 1;
      assert c * y <= x;
      Z.p := Z.p[m := WrapAdd(Z.p[m], One())];
      st := SubMpi(X, X, Y);
      if st != Ok { return; }
      cmp := CmpMpi(X, Y);
    }
    st := Ok;
  }

  lemma WeightOfBits(m: nat)
    ensures Pow(2, BIL * m) == Weight(m)
  {
    WeightIsPow2(m);
    assert BIL * m == m * BIL;
  }

  /** Shifts by whole limbs. */
  method LimbsLeft(Y: Mpi, m: nat) returns (st: Status)
    modifies Y`p
    ensures st == Ok || st == AllocFailed
    ensures st == Ok ==> Y.Mag() == old(Y.Mag()) * Weight(m) && |Y.p| >= old(|Y.p|)
  {
    hide Val, Weight, Pow, IsBitLen;
    WeightOfBits(m);
    BitLenExists(Y.Mag());
    st := ShiftL(Y, BIL * m);
  }

  method LimbsRight(Y: Mpi, m: nat, ghost y: nat) returns (st: Status)
    requires Y.Mag() == y * Weight(m) && y > 0
    modifies Y
    ensures st == Ok || st == AllocFailed
    ensures st == Ok ==> Y.Mag() == y && Y.s == old(Y.s) && |Y.p| >= old(|Y.p|)
  {
    assert Weight(m) >= 1;
    DivModUnique(y * Weight(m), Weight(m), y, 0);
    hide Val, Weight, Pow;
    WeightOfBits(m);
    st := ShiftR(Y, BIL * m);
  }

  lemma PositiveLength(y: nat, t: nat)
    requires IsBitLen(y, t * BIL + (BIL - 1))
    ensures y > 0
  {
    assert Pow(2, t * BIL + (BIL - 2)) >= 1;
  }

  lemma PositiveAligned(y: nat, m: nat)
    requires y > 0
    ensures y * Weight(m) > 0
  {
    MulMono(y, 1, Weight(m));
  }

  /** The top quotient digit, with the divisor shifted all the way up and back down. */
  method TopDigit(X: Mpi, Y: Mpi, Z: Mpi, n: nat, t: nat) returns (st: Status)
    requires X != Y && Z != X && Z != Y && t <= n < |X.p| && t < |Y.p| && n - t < |Z.p|
    requires X.Value() >= 0 && X.Value() < Weight(n + 1) && Y.s == 1
    requires IsBitLen(Y.Mag(), t * BIL + (BIL - 1))
    requires forall k :: 0 <= k < |Z.p| ==> Z.p[k] == 0
    modifies X, Y, Z`p
    ensures st == Ok || st == AllocFailed
    ensures |Z.p| == old(|Z.p|)
    ensures st == Ok ==> forall k :: 0 <= k < n - t ==> Z.p[k] == 0
    ensures st == Ok ==> Y.Mag() == old(Y.Mag()) && Y.s == 1 && |Y.p| > t && |X.p| > n
    ensures st == Ok ==> 0 <= X.Value() < Y.Mag() * Weight(n - t)
    ensures st == Ok ==> old(X.Value()) == Z.Mag() * Y.Mag() + X.Value()
  {
    hide Val, Weight, Pow, IsBitLen;
    ghost var y, x := Y.Mag(), X.Value();
    PositiveLength(y, t);
    var m := n - t;
    ghost var d := y * Weight(m);
    PositiveAligned(y, m);
    st := LimbsLeft(Y, m);
    if st != Ok { return; }
    forall c: int | c >= 0 && c * d <= x
      ensures c < 4
    {
      TopDigitSmall(y, t, n, c, x);
    }
    st := CountTop(X, Y, Z, m);
    if st != Ok { return; }
    OneLimb(Z.p, m);
    MulAssoc(Z.p[m], Weight(m), y);
    st := LimbsRight(Y, m, y);
  }

  // ---------- the digit loop ----------

  lemma DigitAdds(z: int, y: int, q: int, w: int, x: int, x': int, total: int)
    requires total == z * y + x && x == q * (y * w) + x'
    ensures total == (z + q * w) * y + x'
  {
    MulAssoc(q, w, y);
    Distribute(y, z, q * w);
  }

  lemma DivLoopNext(y: nat, i: nat, t: nat)
    requires t < i
    ensures Aligned(y, i, t) * BASE == y * Weight(i - t)
    ensures Aligned(y, i, t) == y * Weight(i - 1 - t)
  {
    WeightSucc(i - t - 1);
    MulAssoc(y, Weight(i - t - 1), BASE);
  }

  method DivLoop(X: Mpi, Y: Mpi, Z: Mpi, T1: Mpi, T2: Mpi, n: nat, t: nat, ghost total: int) returns (st: Status)
    requires X != Y && X != Z && X != T1 && X != T2 && Y != Z && Y != T1 && Y != T2 && Z != T1 && Z != T2 && T1 != T2
    requires t <= n < |X.p| && t < |Y.p| && n - t < |Z.p| && |T1.p| >= 2 && |T2.p| >= 3
    requires Y.s == 1 && Weight(t) <= Y.Mag() < Weight(t + 1)
    requires forall k :: 0 <= k < n - t ==> Z.p[k] == 0
    requires 0 <= X.Value() < Y.Mag() * Weight(n - t) && total == Z.Mag() * Y.Mag() + X.Value()
    modifies X, Z`p, T1, T2
    ensures st == Ok || st == AllocFailed
    ensures st == Ok ==> total == Z.Mag() * Y.Mag() + X.Value() && 0 <= X.Value() < Y.Mag()
    ensures st == Ok ==> |X.p| > n
    ensures |Z.p| == old(|Z.p|)
  {
    ghost var y := Y.Mag();
    hide Val, Weight, Aligned;
    var i := n;
    while i > t
      invariant t <= i <= n && n < |X.p| && |T1.p| >= 2 && |T2.p| >= 3 && |Z.p| == old(|Z.p|)
      invariant forall k :: 0 <= k < i - t ==> Z.p[k] == 0
      invariant 0 <= X.Value() < y * Weight(i - t) && total == Z.Mag() * y + X.Value()
    {
      DivLoopNext(y, i, t);
      ghost var x := X.Value();
      var q;
      st, q := DivDigit(X, Y, T1, T2, i, t);
      if st != Ok { return; }
      ValUpdate(Z.p, i - t - 1, q);
      DigitAdds(Z.Mag(), y, q, Weight(i - t - 1), x, X.Value(), total);
      Z.p := Z.p[i - t - 1 := q];
      i := i - 1;
    }
    WeightZero();
    st := Ok;
  }

  // ---------- division ----------

  lemma ExactCopy(p: seq<Limb>)
    requires Val(p) > 0 && |p| > 0 && (|p| == 1 || p[|p| - 1] != 0)
    ensures Exact(p)
  {
    if p[|p| - 1] == 0 { ValZero(p); }
  }

  lemma LengthRange(p: seq<Limb>)
    requires |p| > 0 && IsBitLen(Val(p), (|p| - 1) * BIL + (BIL - 1))
    ensures Weight(|p| - 1) <= Val(p) < Weight(|p|)
  {
    ValBound(p);
    WeightIsPow2(|p| - 1);
    PowMonotonic(2, (|p| - 1) * BIL, (|p| - 1) * BIL + (BIL - 2));
  }

  /** A trimmed copy of a magnitude. */
  method CopyMagnitude(A: Mpi) returns (st: Status, X: Mpi)
    requires A.Mag() > 0
    ensures fresh(X) && (st == Ok || st == AllocFailed)
    ensures st == Ok ==> X.s == 1 && X.Mag() == A.Mag() && Exact(X.p) && |X.p| <= |A.p|
  {
    hide Val;
    X := new Mpi();
    st := X.Copy(A);
    if st != Ok { return; }
    X.s := 1;
    NonEmpty(X.p);
    ExactCopy(X.p);
  }

  /** A zero number with room for `limbs`. */
  method Scratch(limbs: nat) returns (st: Status, Z: Mpi)
    requires limbs > 0
    ensures fresh(Z) && (st == Ok || st == AllocFailed)
    ensures st == Ok ==> Z.s == 1 && |Z.p| == limbs && forall k :: 0 <= k < |Z.p| ==> Z.p[k] == 0
  {
    BaseFacts();
    Z := new Mpi();
    st := Z.Grow(limbs);
    if st != Ok { return; }
    st := Z.Lset(0);
    if st != Ok { return; }
    ValIsZero(Z.p);
  }

  /** All digits of the normalised division. */
  method DivNormalised(X: Mpi, Y: Mpi, Z: Mpi) returns (st: Status)
    requires X != Y && Z != X && Z != Y && X.s == 1 && Y.s == 1
    requires 0 < |Y.p| <= |X.p| < |Z.p|
    requires IsBitLen(Y.Mag(), (|Y.p| - 1) * BIL + (BIL - 1))
    requires forall k :: 0 <= k < |Z.p| ==> Z.p[k] == 0
    modifies X, Y, Z`p
    ensures st == Ok || st == AllocFailed
    ensures |Z.p| == old(|Z.p|)
    ensures st == Ok ==> old(X.Mag()) == Z.Mag() * old(Y.Mag()) + X.Mag() && X.Mag() < old(Y.Mag())
    ensures st == Ok ==> |X.p| > 0
  {
    hide Val, Weight, Pow, IsBitLen;
    var n, t := |X.p| - 1, |Y.p| - 1;
    ValBound(X.p);
    LengthRange(Y.p);
    ghost var total := X.Value();
    var T1, T2;
    st, T1 := Scratch(2);
    if st != Ok { return; }
    st, T2 := Scratch(3);
    if st != Ok { return; }
    st := TopDigit(X, Y, Z, n, t);
    if st != Ok { return; }
    st := DivLoop(X, Y, Z, T1, T2, n, t, total);
  }

  /** The quotient Z and the remainder X, still scaled by the normalising shift, of two magnitudes. */
  method DivMagnitudes(A: Mpi, B: Mpi) returns (st: Status, X: Mpi, Z: Mpi, k: nat)
    requires 0 < B.Mag() <= A.Mag()
    ensures fresh(X) && fresh(Z) && X != Z
    ensures st == Ok || st == AllocFailed
    ensures st == Ok ==> Z.Mag() == A.Mag() / B.Mag()
    ensures st == Ok ==> X.Mag() / Pow(2, k) == A.Mag() % B.Mag() && |X.p| > 0 && |Z.p| > 0 && Z.s == 1
  {
    ghost var a, b := A.Mag(), B.Mag();
    hide Val, Weight, Pow, IsBitLen;
    k := 0;
    var Y;
    st, Z := Scratch(|A.p| + 2);
    if st != Ok {
      X := new Mpi();
      return;
    }
    st, X := CopyMagnitude(A);
    if st != Ok { return; }
    st, Y := CopyMagnitude(B);
    if st != Ok { return; }
    st, k := Normalise(X, Y);
    if st != Ok { return; }
    st := DivNormalised(X, Y, Z);
    if st != Ok { return; }
    ScaledDivision(a, b, k, Z.Mag(), X.Mag());
  }

  lemma ScaledDivision(a: nat, b: nat, k: nat, q: nat, r: nat)
    requires b > 0 && a * Pow(2, k) == q * (b * Pow(2, k)) + r && r < b * Pow(2, k)
    ensures q == a / b && r / Pow(2, k) == a % b
  {
    hide Pow;
    assert Pow(2, k) >= 1;
    Unscale(a, b, Pow(2, k), q, r);
    DivModUnique(a, b, q, r / Pow(2, k));
  }

  lemma NonEmpty(p: seq<Limb>)
    requires Val(p) > 0
    ensures |p| > 0
  {}

  /** The quotient rounded toward zero, and what it leaves. */
  function TruncQuot(a: int, b: int): int
    requires b != 0
  {
    var q := Abs(a) / Abs(b);
    if (a < 0) == (b < 0) then q else -q
  }

  function TruncRem(a: int, b: int): int
    requires b != 0
  {
    var r := Abs(a) % Abs(b);
    if a < 0 then -r else r
  }

  /** The division identity, with a remainder smaller than the divisor and zero or of the dividend's sign. */
  lemma TruncDivision(a: int, b: int)
    requires b != 0
    ensures a == TruncQuot(a, b) * b + TruncRem(a, b)
    ensures Abs(TruncRem(a, b)) < Abs(b) && (TruncRem(a, b) != 0 ==> (TruncRem(a, b) < 0) == (a < 0))
  {
    var q, r := Abs(a) / Abs(b), Abs(a) % Abs(b);
    assert Abs(a) == Abs(b) * q + r;
    assert 0 <= r < Abs(b);
    if b < 0 { assert Abs(b) * q == (-q) * b; }
  }

  /** The sign the quotient is given: it is read off the operands after the quotient has been stored. */
  ghost function StoredSign(Q: Mpi?, A: Mpi): Sign
    reads A
  {
    if Q == A then 1 else A.s
  }

  /** Whether overwriting an operand with the quotient leaves the quotient's sign right. */
  ghost predicate SignSurvives(Q: Mpi?, A: Mpi, B: Mpi)
    reads A, B
  {
    A.Mag() < B.Mag() || SignMul(StoredSign(Q, A), StoredSign(Q, B)) == SignMul(A.s, B.s)
  }

  /** The remainder is copied, or given its sign, from a dividend that the quotient may have overwritten. */
  ghost predicate RemainderSurvives(Q: Mpi?, A: Mpi, B: Mpi)
    requires B.Mag() > 0
    reads A, B
  {
    Q != A ||
    if A.Mag() < B.Mag() then A.Mag() == 0
    else A.Mag() % B.Mag() == 0 || SignMul(StoredSign(Q, A), StoredSign(Q, B)) == A.s
  }

  lemma SignedQuotient(s: Sign, t: Sign, u: Sign, a: nat, b: nat)
    requires b > 0
    ensures Signed(SignMul(s, t), a / b) == TruncQuot(Signed(s, a), Signed(t, b))
    ensures Signed(u, a / b) == Signed(SignMul(s, t), a / b) <==> a < b || u == SignMul(s, t)
    ensures Signed(s, a % b) == TruncRem(Signed(s, a), Signed(t, b))
  {
    DivBounds(a, b);
    if a < b {
      DivModUnique(a, b, 0, a);
    } else {
      MulStrict(b, 0, a / b + 1);
      if a / b == 0 { assert false; }
    }
  }

  /** Stores the quotient, then the remainder; each takes its sign from the operands as they then are. */
  method StoreResults(Q: Mpi?, R: Mpi?, A: Mpi, B: Mpi, X: Mpi, Z: Mpi, k: nat) returns (st: Status)
    requires Q != null ==> Q != R
    requires X != Z && X != A && X != B && X != Q && X != R && Z != A && Z != B && Z != Q && Z != R
    requires |X.p| > 0 && |Z.p| > 0 && Z.s == 1
    modifies Q, R, X
    ensures st == Ok || st == AllocFailed
    ensures st == Ok && Q != null ==> Q.Mag() == old(Z.Mag()) && |Q.p| > 0
    ensures st == Ok && Q != null ==> Q.s == SignMul(old(StoredSign(Q, A)), old(StoredSign(Q, B)))
    ensures st == Ok && R != null ==>
      R.Value() == Signed(old(if Q == A then SignMul(StoredSign(Q, A), StoredSign(Q, B)) else A.s),
        old(X.Mag()) / Pow(2, k))
    ensures st == Ok && R != null ==> |R.p| >= old(|R.p|) && |R.p| > 0
    ensures st == Ok && R != null && Q != A && old(A.s) == 1 ==> R.s == 1
    ensures st == Ok && R != null && R.Mag() == 0 ==> R.s == 1
  {
    BaseFacts();
    hide Val, Weight, Pow;
    if Q != null {
      st := Q.Copy(Z);
      if st != Ok { return; }
      Q.s := SignMul(A.s, B.s);
    }
    if R != null {
      st := ShiftR(X, k);
      if st != Ok { return; }
      X.s := A.s;
      st := R.Copy(X);
      if st != Ok { return; }
      var rz := CmpInt(R, 0);
      if rz == 0 {
        R.s := 1;
      }
    }
    st := Ok;
  }

  /**
    A = Q * B + R, rounded toward zero. Q and R may be absent, and may be operands. The magnitude of the
    quotient is right for every aliasing, its sign exactly when `SignSurvives`; the remainder is right
    exactly when `RemainderSurvives`.
  */
  method DivMpi(Q: Mpi?, R: Mpi?, A: Mpi, B: Mpi) returns (st: Status)
    requires Q != null ==> Q != R
    modifies Q, R
    ensures st == Ok || st == AllocFailed || st == DivisionByZero
    ensures st == DivisionByZero <==> old(B.Value()) == 0
    ensures st == Ok && Q != null ==> Q.Mag() == old(A.Mag()) / old(B.Mag()) && |Q.p| > 0
    ensures st == Ok && Q != null ==>
      (Q.Value() == TruncQuot(old(A.Value()), old(B.Value())) <==> old(SignSurvives(Q, A, B)))
    ensures st == Ok && Q != null && old(A.Mag() < B.Mag() || (A.s == 1 && B.s == 1)) ==> Q.s == 1
    ensures st == Ok && R != null ==>
      (R.Value() == TruncRem(old(A.Value()), old(B.Value())) <==> old(RemainderSurvives(Q, A, B)))
    ensures st == Ok && R != null && Q != A && old(|A.p|) > 0 ==> |R.p| >= old(|R.p|) && |R.p| > 0
    ensures st == Ok && R != null && Q != A && old(|A.p|) > 0 && old(A.s) == 1 ==> R.s == 1
    ensures st == Ok && R != null && R.Mag() == 0 && old(A.Mag() >= B.Mag()) ==> R.s == 1
  {
    BaseFacts();
    var zero := CmpInt(B, 0);
    if zero == 0 {
      return DivisionByZero;
    }
    ghost var a, b, s, t, u := A.Mag(), B.Mag(), A.s, B.s, SignMul(StoredSign(Q, A), StoredSign(Q, B));
    SignedQuotient(s, t, u, a, b);
    hide Val, Weight, Pow, TruncQuot, TruncRem;
    var cmp := CmpAbs(A, B);
    if cmp < 0 {
      DivModUnique(a, b, 0, a);
      if Q != null {
        st := Q.Lset(0);
        if st != Ok { return; }
      }
      if R != null {
        st := R.Copy(A);
        if st != Ok { return; }
      }
      return Ok;
    }
    var X, Z, k;
    st, X, Z, k := DivMagnitudes(A, B);
    if st != Ok { return; }
    st := StoreResults(Q, R, A, B, X, Z, k);
  }

  /** A = Q * b + R for a machine word. Only a quotient stored over the dividend can spoil a sign or the remainder. */
  method DivInt(Q: Mpi?, R: Mpi?, A: Mpi, b: SignedLimb) returns (st: Status)
    requires Q != null ==> Q != R
    modifies Q, R
    ensures st == Ok || st == AllocFailed || st == DivisionByZero
    ensures st == DivisionByZero <==> b == 0
    ensures st == Ok && Q != null ==> Q.Mag() == old(A.Mag()) / Abs(b) && |Q.p| > 0
    ensures st == Ok && Q != null ==>
      (Q.Value() == TruncQuot(old(A.Value()), b) <==> Q != A || old(A.s) == 1 || old(A.Mag()) < Abs(b))
    ensures st == Ok && Q != null && old(A.s) == 1 && b >= 0 ==> Q.s == 1
    ensures st == Ok && R != null ==>
      (R.Value() == TruncRem(old(A.Value()), b) <==>
        Q != A || if old(A.Mag()) < Abs(b) then old(A.Mag()) == 0
          else old(A.Mag()) % Abs(b) == 0 || old(A.s) == (if b < 0 then -1 else 1))
  {
    var B := FromInt(b);
    SignedParts(B);
    WordSurvives(Q, A, B);
    hide Val, TruncQuot, TruncRem, SignSurvives, RemainderSurvives, SignMul;
    st := DivMpi(Q, R, A, B);
  }

  lemma SignedParts(B: Mpi)
    ensures B.Value() == Signed(B.s, B.Mag()) && B.Mag() == Abs(B.Value())
    ensures B.Value() != 0 ==> B.s == if B.Value() < 0 then -1 else 1
  {}

  lemma WordSurvives(Q: Mpi?, A: Mpi, B: Mpi)
    requires Q != B
    ensures SignSurvives(Q, A, B) <==> Q != A || A.s == 1 || A.Mag() < B.Mag()
    ensures B.Mag() > 0 ==>
      (RemainderSurvives(Q, A, B) <==>
        Q != A || if A.Mag() < B.Mag() then A.Mag() == 0 else A.Mag() % B.Mag() == 0 || A.s == B.s)
  {
    hide Val;
  }

  lemma RemIsCongruent(a: int, b: int)
    requires b > 0
    ensures Cong(TruncRem(a, b), a, b)
  {
    TruncDivision(a, b);
    CongIntro(a, TruncRem(a, b), b, TruncQuot(a, b));
    CongSym(a, TruncRem(a, b), b);
  }

  lemma RemInRange(a: int, b: int)
    requires b > 0
    ensures a >= 0 ==> 0 <= TruncRem(a, b) < b
  {
    TruncDivision(a, b);
  }

  lemma CongShift(r: int, a: int, b: int)
    requires b > 0 && Cong(r, a, b)
    ensures Cong(r + b, a, b) && Cong(r - b, a, b)
  {
    var k := CongElim(r, a, b);
    CongIntro(r + b, a, b, k + 1);
    CongIntro(r - b, a, b, k - 1);
  }

  /** Brings a remainder into 0..B-1 by whole multiples of B. */
  method Reduce(R: Mpi, B: Mpi) returns (st: Status)
    requires R != B && B.Value() > 0
    modifies R
    ensures st == Ok || st == AllocFailed
    ensures st == Ok ==> 0 <= R.Value() < B.Value() && Cong(R.Value(), old(R.Value()), B.Value())
    ensures st == Ok ==> |R.p| >= old(|R.p|)
    ensures st == Ok && 0 <= old(R.Value()) < B.Value() ==> R.s == old(R.s)
  {
    BaseFacts();
    NonEmpty(B.p);
    ghost var a, b, len := R.Value(), B.Value(), |R.p|;
    CongRefl(a, b);
    hide Val, Weight, Pow, Cong;
    var cmp := CmpInt(R, 0);
    while cmp < 0
      invariant Cong(R.Value(), a, b) && cmp == Sgn(R.Value()) && |R.p| >= len
      invariant 0 <= a < b ==> R.Value() == a && R.s == old(R.s)
      decreases -R.Value()
    {
      NonEmpty(R.p);
      CongShift(R.Value(), a, b);
      st := AddMpi(R, R, B);
      if st != Ok { return; }
      cmp := CmpInt(R, 0);
    }
    cmp := CmpMpi(R, B);
    while cmp >= 0
      invariant Cong(R.Value(), a, b) && 0 <= R.Value() && cmp == Sgn(R.Value() - b) && |R.p| >= len
      invariant 0 <= a < b ==> R.Value() == a && R.s == old(R.s)
      decreases R.Value()
    {
      NonEmpty(R.p);
      CongShift(R.Value(), a, b);
      st := SubMpi(R, R, B);
      if st != Ok { return; }
      cmp := CmpMpi(R, B);
    }
    st := Ok;
  }

  /** One turn of the reducing loops when result and modulus are one object: twice itself while negative, then zero. */
  ghost function OneObjectTurns(v: int, n: nat): int {
    if n == 0 then v else
      var w := OneObjectTurns(v, n - 1);
      if w < 0 then w + w else w - w
  }

  /**
    Then one of the two loops never ends: the value stays negative, or stays zero and not below the modulus, which it
    is.
  */
  lemma {:induction false} OneObjectNeverEnds(v: int, n: nat)
    ensures v < 0 ==> OneObjectTurns(v, n) <= v
    ensures v >= 0 && n > 0 ==> OneObjectTurns(v, n) == 0
  {
    if n > 0 { OneObjectNeverEnds(v, n - 1); }
  }

  /** R = A mod B, between 0 and B. */
  method ModMpi(R: Mpi, A: Mpi, B: Mpi) returns (st: Status)
    requires R != B
    modifies R
    ensures st == Ok || st == AllocFailed || st == DivisionByZero || st == NegativeValue
    ensures st == NegativeValue <==> B.Value() < 0
    ensures st == DivisionByZero <==> B.Value() == 0
    ensures st == Ok ==> R.Value() == old(A.Value()) % B.Value()
    ensures st == Ok && old(|A.p|) > 0 ==> |R.p| >= old(|R.p|) && |R.p| > 0
    ensures st == Ok && old(|A.p|) > 0 && old(A.s) == 1 ==> R.s == 1
  {
    BaseFacts();
    ghost var a, b := A.Value(), B.Value();
    var cmp := CmpInt(B, 0);
    if cmp < 0 {
      return NegativeValue;
    }
    hide Val, Weight, Pow, Cong, TruncRem;
    st := DivMpi(null, R, A, B);
    if st != Ok { return; }
    RemIsCongruent(a, b);
    RemInRange(a, b);
    st := Reduce(R, B);
    if st != Ok { return; }
    CongTrans(R.Value(), TruncRem(a, b), a, b);
    CongIsMod(R.Value(), a, b);
  }
}
