/** Sliding-window modular exponentiation. */
module MpiExp {
  import opened Arithmetic
  import opened Limbs
  import opened MpiCore
  import opened MpiShift
  import opened MpiAddSub
  import opened MpiDiv
  import opened Montgomery
  import opened NumberTheory

  // ---------- Montgomery form ----------

  /** `x` is `v * R` reduced modulo n. */
  ghost predicate InForm(x: int, v: int, n: int, len: nat)
    requires n > 0
  {
    0 <= x < n && Cong(x, v * Weight(len), n)
  }

  lemma CancelWeight(x: int, y: int, len: nat, n: int)
    requires n > 0 && n % 2 == 1 && Cong(x * Weight(len), y * Weight(len), n)
    ensures Cong(x, y, n)
  {
    hide Weight, Cong;
    WeightIsPow2(len);
    CongCancelPow2(x, y, len * BIL, n);
  }

  /** The product of two numbers in form is their product in form. */
  lemma ProductInForm(r: int, a: int, b: int, n: int, len: nat, va: int, vb: int)
    requires n > 0 && n % 2 == 1 && IsMontProduct(r, a, b, n, len)
    requires Cong(a, va * Weight(len), n) && Cong(b, vb * Weight(len), n)
    ensures InForm(r, va * vb, n, len)
  {
    var w := Weight(len);
    hide Weight, Cong;
    CongMul(a, va * w, b, vb * w, n);
    CongTrans(r * w, a * b, (va * w) * (vb * w), n);
    assert (va * w) * (vb * w) == ((va * vb) * w) * w;
    CancelWeight(r, (va * vb) * w, len, n);
  }

  /** Reducing leaves the plain value. */
  lemma OutOfForm(r: int, a: int, n: int, len: nat, v: int)
    requires n > 0 && n % 2 == 1 && IsMontProduct(r, a, 1, n, len) && Cong(a, v * Weight(len), n)
    ensures r == v % n
  {
    var w := Weight(len);
    hide Weight, Cong;
    CongTrans(r * w, a * 1, v * w, n);
    CancelWeight(r, v, len, n);
    CongIsMod(r, v, n);
  }

  /** Multiplying by the cached square of R puts a number into form. */
  lemma IntoForm(r: int, a: int, b: int, n: int, len: nat, v: int)
    requires n > 0 && n % 2 == 1 && IsMontProduct(r, a, b, n, len)
    requires Cong(a, v, n) && b == Weight(2 * len) % n
    ensures InForm(r, v, n, len)
  {
    var w := Weight(len);
    assert Weight(2 * len) == w * w by { WeightAdd(len, len); }
    hide Weight;
    CongMod(w * w, n);
    hide Cong;
    CongMul(a, v, b, w * w, n);
    CongTrans(r * w, a * b, v * (w * w), n);
    assert v * (w * w) == (v * w) * w by { MulAssoc(v, w, w); }
    CancelWeight(r, v * w, len, n);
  }

  /** X holds `a^g` in form. */
  ghost predicate Holds(X: Mpi, a: nat, g: nat, N: Mpi)
    reads X, N
  {
    N.Mag() > 0 && InForm(X.Mag(), Pow(a, g), N.Mag(), |N.p|)
  }

  lemma OddValue(N: Mpi)
    requires |N.p| > 0 && N.p[0] % 2 == 1
    ensures N.Mag() % 2 == 1 && N.Mag() > 0 && N.Mag() < Weight(|N.p|)
  {
    ValParity(N.p);
    OddIsPositive(N);
    ValBound(N.p);
  }

  /** What every Montgomery step of the exponentiation needs of its operands. */
  ghost predicate Ready(X: Mpi, N: Mpi, mm: Limb, T: Mpi)
    reads X, N, T
  {
    T != X && T != N && X != N && MontgConst(N, mm) && |X.p| >= |N.p| + 1 && |T.p| >= 2 * |N.p| + 2
  }

  /** X = X * X / R. */
  method Square(X: Mpi, N: Mpi, mm: Limb, T: Mpi, ghost a: nat, ghost g: nat)
    requires Ready(X, N, mm, T) && Holds(X, a, g, N)
    modifies X`p, T`p
    ensures Ready(X, N, mm, T) && Holds(X, a, 2 * g, N)
  {
    OddValue(N);
    hide Val, Weight, Pow, Cong, IsMontProduct;
    ghost var x := X.Mag();
    var st := MontMul(X, X, N, mm, T);
    PowAdd(a, g, g);
    ProductInForm(X.Mag(), x, x, N.Mag(), |N.p|, Pow(a, g), Pow(a, g));
  }

  /** X = X * W / R. */
  method Times(X: Mpi, W: Mpi, N: Mpi, mm: Limb, T: Mpi, ghost a: nat, ghost g: nat, ghost h: nat)
    requires Ready(X, N, mm, T) && Holds(X, a, g, N) && Holds(W, a, h, N) && W != T && |W.p| > 0
    modifies X`p, T`p
    ensures Ready(X, N, mm, T) && Holds(X, a, g + h, N)
  {
    OddValue(N);
    hide Val, Weight, Pow, Cong, IsMontProduct;
    ghost var x, w := X.Mag(), W.Mag();
    var st := MontMul(X, W, N, mm, T);
    PowAdd(a, g, h);
    ProductInForm(X.Mag(), x, w, N.Mag(), |N.p|, Pow(a, g), Pow(a, h));
  }

  lemma DoubleTimes(g: nat, i: nat)
    ensures 2 * (g * Pow(2, i)) == g * Pow(2, i + 1) && g * Pow(2, i) >= 0
  {
    MulAssoc(2, g, Pow(2, i));
    MulAssoc(g, 2, Pow(2, i));
    MulMono(g, 0, Pow(2, i));
  }

  /** `count` squarings. */
  method Squares(X: Mpi, N: Mpi, mm: Limb, T: Mpi, count: nat, ghost a: nat, ghost g: nat) returns (ghost g': nat)
    requires Ready(X, N, mm, T) && Holds(X, a, g, N)
    modifies X`p, T`p
    ensures Ready(X, N, mm, T) && g' == g * Pow(2, count) && Holds(X, a, g', N)
  {
    hide Holds, Ready, Pow;
    g' := g;
    PowZero();
    for i := 0 to count
      invariant Ready(X, N, mm, T) && g' == g * Pow(2, i) && Holds(X, a, g', N)
    {
      DoubleTimes(g, i);
      Square(X, N, mm, T, a, g');
      g' := 2 * g';
    }
  }

  // ---------- the table of odd-window powers ----------

  /** Table entry `i` holds `a^i`, with room for a product. */
  ghost predicate Filled(M: Mpi, i: nat, a: nat, N: Mpi)
    reads M, N
  {
    |M.p| >= |N.p| + 1 && Holds(M, a, i, N)
  }

  ghost predicate Distinct(W: seq<Mpi>, N: Mpi, T: Mpi) {
    T !in W && N !in W && T != N && forall i, j :: 0 <= i < j < |W| ==> W[i] != W[j]
  }

  /** One entry from another: room, copy, then whatever product the caller needs. */
  method Seed(M: Mpi, S: Mpi, N: Mpi, ghost a: nat, ghost g: nat) returns (st: Status)
    requires M != S && M != N && S != N && Filled(S, g, a, N)
    modifies M
    ensures st == Ok || st == AllocFailed
    ensures st == Ok ==> Filled(M, g, a, N)
  {
    hide Val, Weight, Pow, Cong;
    st := M.Grow(|N.p| + 1);
    if st != Ok { return; }
    st := M.Copy(S);
    if st != Ok { return; }
    assert M.Value() == S.Value();
    assert M.Mag() == S.Mag();
  }

  lemma ReadyFor(M: Mpi, i: nat, a: nat, N: Mpi, mm: Limb, T: Mpi)
    requires M != N && M != T && N != T && Filled(M, i, a, N) && MontgConst(N, mm) && |T.p| >= 2 * |N.p| + 2
    ensures Ready(M, N, mm, T) && Holds(M, a, i, N)
  {}

  /** Entry `i` as entry `i - 1` times entry 1. */
  method NextEntry(M: Mpi, S: Mpi, First: Mpi, N: Mpi, mm: Limb, T: Mpi, ghost a: nat, ghost g: nat)
    returns (st: Status)
    requires M != S && M != First && M != N && M != T && S != N && First != T && N != T
    requires MontgConst(N, mm) && |T.p| >= 2 * |N.p| + 2 && Filled(S, g, a, N) && Filled(First, 1, a, N)
    modifies M, T`p
    ensures st == Ok || st == AllocFailed
    ensures st == Ok ==> |T.p| >= 2 * |N.p| + 2 && Filled(M, g + 1, a, N)
  {
    st := Seed(M, S, N, a, g);
    if st != Ok { return; }
    Times(M, First, N, mm, T, a, g, 1);
  }

  method BuildTable(W: seq<Mpi>, wsize: nat, N: Mpi, mm: Limb, T: Mpi, ghost a: nat) returns (st: Status)
    requires 1 <= wsize && Pow(2, wsize) <= |W| && Distinct(W, N, T)
    requires MontgConst(N, mm) && |T.p| >= 2 * |N.p| + 2 && 1 < |W| && Filled(W[1], 1, a, N)
    modifies W, T`p
    ensures st == Ok || st == AllocFailed
    ensures st == Ok ==> |T.p| >= 2 * |N.p| + 2 && Filled(W[1], 1, a, N)
    ensures st == Ok ==> forall i :: Pow(2, wsize - 1) <= i < Pow(2, wsize) ==> Filled(W[i], i, a, N)
  {
    PowZero();
    assert Pow(2, wsize) == 2 * Pow(2, wsize - 1);
    if wsize > 1 {
      assert Pow(2, wsize - 1) == 2 * Pow(2, wsize - 2);
      hide Pow, Filled, Holds, Ready, MontgConst;
      var j := Pow(2, wsize - 1);
      st := Seed(W[j], W[1], N, a, 1);
      if st != Ok { return; }
      ReadyFor(W[j], 1, a, N, mm, T);
      ghost var g := Squares(W[j], N, mm, T, wsize - 1, a, 1);
      FilledBy(W[j], j, a, N, mm, T);
      for i := j + 1 to Pow(2, wsize)
        invariant |T.p| >= 2 * |N.p| + 2 && Filled(W[1], 1, a, N)
        invariant forall k :: j <= k < i ==> Filled(W[k], k, a, N)
      {
        st := NextEntry(W[i], W[i - 1], W[1], N, mm, T, a, i - 1);
        if st != Ok { return; }
      }
    }
    st := Ok;
  }

  lemma FilledBy(M: Mpi, i: nat, a: nat, N: Mpi, mm: Limb, T: Mpi)
    requires Ready(M, N, mm, T) && Holds(M, a, i, N)
    ensures Filled(M, i, a, N) && |T.p| >= 2 * |N.p| + 2
  {}

  // ---------- the window over the exponent bits ----------

  /**
    The bits read so far are `h`; the accumulator stands for `a^g`, and `nbits` further bits `w`, the first of
    them set, are held left-aligned in `wbits`. States: 0 no set bit seen, 1 between windows, 2 inside a window.
  */
  ghost predicate Window(h: int, g: int, nbits: nat, w: int, wbits: int, wsize: nat, state: int) {
    0 <= state <= 2 && nbits < wsize && (state == 2 <==> nbits > 0)
    && g >= 0 && 0 <= w < Pow(2, nbits) && h == g * Pow(2, nbits) + w
    && wbits == w * Pow(2, wsize - nbits)
    && (nbits > 0 ==> Pow(2, nbits - 1) <= w)
    && (state == 0 ==> g == 0)
  }

  lemma WindowStart(wsize: nat)
    requires wsize >= 1
    ensures Window(0, 0, 0, 0, 0, wsize, 0)
  {}

  /** Leading zeros do nothing; a zero between windows squares. */
  lemma WindowIdle(h: int, g: int, nbits: nat, w: int, wbits: int, wsize: nat, state: int)
    requires Window(h, g, nbits, w, wbits, wsize, state) && state < 2
    ensures nbits == 0 && w == 0 && wbits == 0
    ensures state == 0 ==> Window(2 * h, g, nbits, w, wbits, wsize, state)
    ensures state == 1 ==> Window(2 * h, 2 * g, nbits, w, wbits, wsize, state)
  {}

  lemma AppendBit(g: int, w: int, p: int, ei: int)
    ensures 2 * (g * p + w) + ei == g * (2 * p) + (2 * w + ei)
  {
    MulAssoc(g, 2, p);
  }

  /** A bit joins the window. */
  lemma WindowGrow(h: int, g: int, nbits: nat, w: int, wbits: nat, wsize: nat, state: int, ei: int)
    requires Window(h, g, nbits, w, wbits, wsize, state) && 0 <= ei <= 1 && (state < 2 ==> ei == 1)
    ensures var wbits' := OrBits(wbits, ei * Pow(2, wsize - nbits - 1));
            var w' := 2 * w + ei;
            if nbits + 1 < wsize then Window(2 * h + ei, g, nbits + 1, w', wbits', wsize, 2)
            else wbits' == w' && Pow(2, wsize - 1) <= w' < Pow(2, wsize) && 2 * h + ei == g * Pow(2, wsize) + w'
  {
    var p, q := Pow(2, nbits), Pow(2, wsize - nbits - 1);
    assert Pow(2, nbits + 1) == 2 * p && Pow(2, wsize - nbits) == 2 * q;
    if nbits > 0 { assert Pow(2, nbits) == 2 * Pow(2, nbits - 1); } else { PowZero(); }
    hide Pow;
    AppendBit(g, w, p, ei);
    assert w * (2 * q) == (2 * w) * q by { MulAssoc(w, 2, q); MulAssoc(2, w, q); }
    OrOneBit(wbits, w, q, wsize - nbits - 1, ei);
    Distribute(q, 2 * w, ei);
    PowZero();
  }

  lemma OrOneBit(x: nat, w: int, q: int, k: nat, ei: int)
    requires q == Pow(2, k) && w >= 0 && x == (2 * w) * q && 0 <= ei <= 1
    ensures ei * q >= 0 && OrBits(x, ei * q) == x + ei * q
  {
    hide OrBits;
    if ei == 0 {
      OrZero(x);
    } else {
      assert Pow(2, k + 1) == 2 * q;
      MulAssoc(w, 2, q);
      DivModUnique(x, 2 * q, w, 0);
      OrIsSum(x, q, k + 1);
    }
  }

  lemma WindowFlushed(h: int, wsize: nat)
    requires wsize >= 1 && h >= 0
    ensures Window(h, h, 0, 0, 0, wsize, 1)
  {}

  /** Reading one more bit of a number from the top. */
  lemma NextBit(v: nat, pos: nat)
    ensures v / Pow(2, pos) == 2 * (v / Pow(2, pos + 1)) + (v / Pow(2, pos)) % 2
  {
    var w := Pow(2, pos);
    assert Pow(2, pos + 1) == w * 2;
    DivDiv(v, w, 2);
  }

  /** The table entries the exponentiation may use. */
  ghost predicate TableFilled(W: seq<Mpi>, wsize: nat, a: nat, N: Mpi)
    requires wsize >= 1
    reads W, N
  {
    1 < |W| && Pow(2, wsize) <= |W| && Filled(W[1], 1, a, N)
    && forall i :: Pow(2, wsize - 1) <= i < Pow(2, wsize) ==> Filled(W[i], i, a, N)
  }

  /** A full window: `wsize` squarings and one product with the table entry it selects. */
  method Flush(X: Mpi, W: seq<Mpi>, N: Mpi, mm: Limb, T: Mpi, wsize: nat, wbits: nat, ghost a: nat, ghost g: nat)
    requires wsize >= 1 && TableFilled(W, wsize, a, N) && Distinct(W, N, T) && X !in W
    requires Pow(2, wsize - 1) <= wbits < Pow(2, wsize)
    requires Ready(X, N, mm, T) && Holds(X, a, g, N)
    modifies X`p, T`p
    ensures Ready(X, N, mm, T) && g * Pow(2, wsize) >= 0 && Holds(X, a, g * Pow(2, wsize) + wbits, N)
    ensures TableFilled(W, wsize, a, N)
  {
    assert |W[wbits].p| > 0 && Filled(W[wbits], wbits, a, N);
    DoubleTimes(g, wsize);
    ghost var g' := Squares(X, N, mm, T, wsize, a, g);
    Times(X, W[wbits], N, mm, T, a, g', wbits);
  }

  /** A bit joins the window, which is flushed when full. */
  method JoinBit(X: Mpi, W: seq<Mpi>, N: Mpi, mm: Limb, T: Mpi, wsize: nat, ei: nat, state: nat, nbits: nat, wbits: nat,
                 ghost a: nat, ghost h: nat, ghost g: nat, ghost w: nat)
    returns (state': nat, nbits': nat, wbits': nat, ghost g': nat, ghost w': nat)
    requires wsize >= 1 && TableFilled(W, wsize, a, N) && Distinct(W, N, T) && X !in W
    requires Ready(X, N, mm, T) && Holds(X, a, g, N)
    requires Window(h, g, nbits, w, wbits, wsize, state) && ei <= 1 && (state < 2 ==> ei == 1)
    modifies X`p, T`p
    ensures Ready(X, N, mm, T) && Holds(X, a, g', N) && TableFilled(W, wsize, a, N)
    ensures Window(2 * h + ei, g', nbits', w', wbits', wsize, state')
  {
    WindowGrow(h, g, nbits, w, wbits, wsize, state, ei);
    assert nbits < wsize;
    hide Holds, Ready, TableFilled, Window, Pow, OrBits, Distinct;
    MulMono(ei, 0, Pow(2, wsize - nbits - 1));
    state' := 2;
    nbits' := nbits + 1;
    wbits' := OrBits(wbits, ei * Pow(2, wsize - nbits'));
    g', w' := g, 2 * w + ei;
    if nbits' == wsize {
      Flush(X, W, N, mm, T, wsize, wbits', a, g);
      WindowFlushed(2 * h + ei, wsize);
      g' := 2 * h + ei;
      state', nbits', wbits', w' := 1, 0, 0, 0;
    }
  }

  /** One exponent bit: skip a leading zero, square between windows, or join the window. */
  method TakeBit(X: Mpi, W: seq<Mpi>, N: Mpi, mm: Limb, T: Mpi, wsize: nat, ei: nat, state: nat, nbits: nat, wbits: nat,
                 ghost a: nat, ghost h: nat, ghost g: nat, ghost w: nat)
    returns (state': nat, nbits': nat, wbits': nat, ghost g': nat, ghost w': nat)
    requires wsize >= 1 && TableFilled(W, wsize, a, N) && Distinct(W, N, T) && X !in W
    requires Ready(X, N, mm, T) && Holds(X, a, g, N)
    requires Window(h, g, nbits, w, wbits, wsize, state) && ei <= 1
    modifies X`p, T`p
    ensures Ready(X, N, mm, T) && Holds(X, a, g', N) && TableFilled(W, wsize, a, N)
    ensures Window(2 * h + ei, g', nbits', w', wbits', wsize, state')
  {
    assert state <= 2;
    if ei == 0 && state < 2 { WindowIdle(h, g, nbits, w, wbits, wsize, state); }
    state', nbits', wbits', g', w' := state, nbits, wbits, g, w;
    if ei == 0 && state == 0 {
      return;
    }
    if ei == 0 && state == 1 {
      hide Window;
      Square(X, N, mm, T, a, g);
      g' := 2 * g;
      return;
    }
    state', nbits', wbits', g', w' := JoinBit(X, W, N, mm, T, wsize, ei, state, nbits, wbits, a, h, g, w);
  }

  /** h is the number formed by the bits of the limbs from bit `bit` of limb `limb` up. */
  ghost predicate TopBits(p: seq<Limb>, limb: nat, bit: nat, h: nat) {
    h == Val(p) / Pow(2, limb * BIL + bit)
  }

  lemma LimbsHaveBits()
    ensures BIL > 0
  {}

  lemma NoBits(p: seq<Limb>)
    ensures TopBits(p, |p|, 0, 0)
  {
    ValBound(p);
    WeightIsPow2(|p|);
    DivModUnique(Val(p), Weight(|p|), 0, Val(p));
  }

  lemma AllBits(p: seq<Limb>, h: nat)
    requires TopBits(p, 0, 0, h)
    ensures h == Val(p)
  {
    PowZero();
  }

  lemma LimbRead(p: seq<Limb>, limb: nat, h: nat)
    requires TopBits(p, limb + 1, 0, h)
    ensures TopBits(p, limb, BIL, h)
  {
    Distribute(BIL, limb, 1);
  }

  lemma BitRead(p: seq<Limb>, limb: nat, bit: nat, h: nat)
    requires limb < |p| && bit < BIL && TopBits(p, limb, bit + 1, h)
    ensures 0 <= LimbBit(p[limb], bit) <= 1
    ensures TopBits(p, limb, bit, 2 * h + LimbBit(p[limb], bit))
  {
    hide Val, Pow;
    BitOfLimb(p, limb, bit);
    NextBit(Val(p), limb * BIL + bit);
  }

  /** The bit loop: the exponent is read from its top bit down. */
  method ReadBits(X: Mpi, W: seq<Mpi>, E: Mpi, N: Mpi, mm: Limb, T: Mpi, wsize: nat, ghost a: nat)
    returns (nbits: nat, wbits: nat, ghost g: nat, ghost w: nat, ghost state: nat)
    requires wsize >= 1 && TableFilled(W, wsize, a, N) && Distinct(W, N, T) && X !in W && E != X && E != T
    requires Ready(X, N, mm, T) && Holds(X, a, 0, N)
    modifies X`p, T`p
    ensures Ready(X, N, mm, T) && Holds(X, a, g, N) && TableFilled(W, wsize, a, N)
    ensures Window(Val(E.p), g, nbits, w, wbits, wsize, state)
  {
    hide *;
    LimbsHaveBits();
    var nblimbs, bufsize := |E.p|, 0;
    var st := 0;
    nbits, wbits, g, w := 0, 0, 0, 0;
    ghost var h: nat := 0;
    WindowStart(wsize);
    NoBits(E.p);
    while true
      invariant 0 <= nblimbs <= |E.p| && 0 <= bufsize < BIL && (nblimbs == |E.p| ==> bufsize == 0)
      invariant TopBits(E.p, nblimbs, bufsize, h)
      invariant Ready(X, N, mm, T) && Holds(X, a, g, N) && TableFilled(W, wsize, a, N)
      invariant Window(h, g, nbits, w, wbits, wsize, st)
      decreases nblimbs, bufsize
    {
      if bufsize == 0 {
        if nblimbs == 0 {
          break;
        }
        nblimbs := nblimbs - 1;
        bufsize := BIL;
        LimbRead(E.p, nblimbs, h);
      }
      bufsize := bufsize - 1;
      BitRead(E.p, nblimbs, bufsize, h);
      var ei := LimbBit(E.p[nblimbs], bufsize);
      st, nbits, wbits, g, w := TakeBit(X, W, N, mm, T, wsize, ei, st, nbits, wbits, a, h, g, w);
      h := 2 * h + ei;
    }
    state := st;
    AllBits(E.p, h);
  }

  // ---------- the bits left in an unfinished window ----------

  /** Shifting the left-aligned window past bit `wsize` exposes its bits one by one. */
  lemma WindowBit(w: nat, wsize: nat, m: nat)
    requires m <= wsize
    ensures (w * Pow(2, wsize - m)) / Pow(2, wsize) == w / Pow(2, m)
  {
    var p, q := Pow(2, wsize - m), Pow(2, m);
    assert Pow(2, wsize) == p * q by { PowAdd(2, wsize - m, m); }
    hide Pow;
    MulMono(w, 0, p);
    DivDiv(w * p, p, q);
    DivModUnique(w * p, p, w, 0);
  }

  lemma TailStep(g: nat, w: nat, nbits: nat, i: nat)
    requires i < nbits
    ensures 2 * (g * Pow(2, i) + w / Pow(2, nbits - i)) + (w / Pow(2, nbits - i - 1)) % 2
         == g * Pow(2, i + 1) + w / Pow(2, nbits - i - 1)
  {
    hide Pow;
    DoubleTimes(g, i);
    NextBit(w, nbits - i - 1);
  }

  lemma TailShift(w: nat, wsize: nat, nbits: nat, i: nat)
    requires i < nbits <= wsize
    ensures 2 * (w * Pow(2, wsize - nbits + i)) == w * Pow(2, wsize - (nbits - i - 1))
  {
    var k := wsize - nbits + i;
    assert Pow(2, k + 1) == 2 * Pow(2, k);
    MulAssoc(w, 2, Pow(2, k));
    MulAssoc(2, w, Pow(2, k));
  }

  lemma TailEnds(g: nat, w: nat, nbits: nat)
    ensures w < Pow(2, nbits) ==> g * Pow(2, 0) + w / Pow(2, nbits) == g
    ensures g * Pow(2, nbits) + w / Pow(2, 0) == g * Pow(2, nbits) + w
  {
    if w < Pow(2, nbits) { DivModUnique(w, Pow(2, nbits), 0, w); }
    DivModUnique(w, 1, w, 0);
  }

  /** Bit `wsize` of the shifted window decides each remaining product. */
  method Remaining(X: Mpi, W1: Mpi, N: Mpi, mm: Limb, T: Mpi, wsize: nat, nbits: nat, window: nat,
                   ghost a: nat, ghost g: nat, ghost w: nat)
    requires nbits <= wsize && w < Pow(2, nbits) && window == w * Pow(2, wsize - nbits)
    requires W1 != X && W1 != T && W1 != N && Filled(W1, 1, a, N)
    requires Ready(X, N, mm, T) && Holds(X, a, g, N)
    modifies X`p, T`p
    ensures g * Pow(2, nbits) + w >= 0
    ensures Ready(X, N, mm, T) && Holds(X, a, g * Pow(2, nbits) + w, N)
  {
    var wbits := window;
    TailEnds(g, w, nbits);
    ghost var e := g;
    var i := 0;
    assert |W1.p| > 0;
    hide Holds, Ready, Pow;
    while i < nbits
      invariant 0 <= i <= nbits && e == g * Pow(2, i) + w / Pow(2, nbits - i)
      invariant wbits == w * Pow(2, wsize - nbits + i)
      invariant Ready(X, N, mm, T) && Holds(X, a, e, N) && Filled(W1, 1, a, N)
    {
      Square(X, N, mm, T, a, e);
      TailShift(w, wsize, nbits, i);
      WindowBit(w, wsize, nbits - i - 1);
      TailStep(g, w, nbits, i);
      e := 2 * e;
      wbits := 2 * wbits;
      if (wbits / Pow(2, wsize)) % 2 != 0 {
        Times(X, W1, N, mm, T, a, e, 1);
        e := e + 1;
      }
      i := i + 1;
    }
  }

  lemma WindowValue(h: int, g: int, nbits: nat, w: int, wbits: int, wsize: nat, state: int)
    requires Window(h, g, nbits, w, wbits, wsize, state)
    ensures nbits < wsize && g >= 0 && 0 <= w < Pow(2, nbits) && wbits == w * Pow(2, wsize - nbits)
    ensures g * Pow(2, nbits) + w == h
  {}

  // ---------- the whole exponentiation ----------

  type WindowLimit = x: nat | 1 <= x <= 6 witness 6

  /** The largest window the library is built with. */
  const WINDOW_SIZE: WindowLimit

  function WindowSize(bits: nat): (w: nat)
    ensures 1 <= w <= WINDOW_SIZE
  {
    var w := if bits > 671 then 6 else if bits > 239 then 5 else if bits > 79 then 4 else if bits > 23 then 3 else 1;
    if w > WINDOW_SIZE then WINDOW_SIZE else w
  }

  /** X = a^E in form, from the table's first entry and the form of 1. */
  method Exponentiate(X: Mpi, W: seq<Mpi>, E: Mpi, N: Mpi, mm: Limb, T: Mpi, wsize: nat, ghost a: nat)
    returns (st: Status)
    requires 1 <= wsize && 1 < |W| && Pow(2, wsize) <= |W| && Distinct(W, N, T) && X !in W && E !in W && E != X
      && E != T
    requires Ready(X, N, mm, T) && Holds(X, a, 0, N) && Filled(W[1], 1, a, N)
    modifies W, X`p, T`p
    ensures st == Ok || st == AllocFailed
    ensures st == Ok ==> Ready(X, N, mm, T) && Holds(X, a, E.Mag(), N)
  {
    hide Val, Weight, Pow, Holds;
    st := BuildTable(W, wsize, N, mm, T, a);
    if st != Ok { return; }
    var nbits, wbits;
    ghost var g, w, state;
    nbits, wbits, g, w, state := ReadBits(X, W, E, N, mm, T, wsize, a);
    WindowValue(E.Mag(), g, nbits, w, wbits, wsize, state);
    Remaining(X, W[1], N, mm, T, wsize, nbits, wbits, a, g, w);
  }

  /** A fresh table of empty numbers. */
  method EmptyTable(size: nat) returns (W: seq<Mpi>)
    ensures |W| == size && forall i :: 0 <= i < size ==> fresh(W[i])
    ensures forall i, j :: 0 <= i < j < size ==> W[i] != W[j]
  {
    W := [];
    for k := 0 to size
      invariant |W| == k && forall i :: 0 <= i < k ==> fresh(W[i])
      invariant forall i, j :: 0 <= i < j < k ==> W[i] != W[j]
    {
      var M := new Mpi();
      W := W + [M];
    }
  }

  /** R squared modulo N, as cached between calls. */
  ghost predicate IsSquareCache(C: Mpi, N: Mpi)
    reads C, N
  {
    N.Mag() > 0 && |C.p| > 0 && C.s == 1 && C.Mag() == Weight(2 * |N.p|) % N.Mag()
  }

  method SquareCache(N: Mpi) returns (st: Status, C: Mpi)
    requires N.Value() > 0
    ensures fresh(C) && (st == Ok || st == AllocFailed)
    ensures st == Ok ==> IsSquareCache(C, N)
  {
    BaseFacts();
    hide Val, Weight, Pow, IsBitLen;
    C := new Mpi();
    st := C.Lset(1);
    if st != Ok { return; }
    WeightOfBits(2 * |N.p|);
    assert |N.p| * 2 * BIL == BIL * (2 * |N.p|);
    BitLenExists(C.Mag());
    st := ShiftL(C, |N.p| * 2 * BIL);
    if st != Ok { return; }
    st := ModMpi(C, C, N);
  }

  lemma CacheFits(C: Mpi, N: Mpi)
    requires IsSquareCache(C, N)
    ensures C.Mag() < N.Mag() < Weight(|N.p|)
  {
    hide Val, Weight;
    ValBound(N.p);
  }

  /** W1 = A * R mod N. */
  method FirstEntry(W1: Mpi, A: Mpi, C: Mpi, N: Mpi, mm: Limb, T: Mpi) returns (st: Status)
    requires W1 != A && W1 != C && W1 != N && W1 != T && T != C && T != N && T != A
    requires A.s == 1 && |A.p| > 0 && N.s == 1 && IsSquareCache(C, N)
    requires MontgConst(N, mm) && |W1.p| >= |N.p| + 1 && |T.p| >= 2 * |N.p| + 2
    modifies W1, T`p
    ensures st == Ok || st == AllocFailed
    ensures st == Ok ==> Filled(W1, 1, A.Mag(), N) && |T.p| >= 2 * |N.p| + 2
  {
    OddValue(N);
    CacheFits(C, N);
    ghost var a, n := A.Mag(), N.Mag();
    CongMod(a, n);
    CongRefl(a, n);
    assert Pow(a, 1) == a * Pow(a, 0) == a;
    hide Val, Weight, Pow, Cong, IsMontProduct;
    var cmp := CmpMpi(A, N);
    if cmp >= 0 {
      st := ModMpi(W1, A, N);
      if st != Ok { return; }
    } else {
      st := W1.Copy(A);
      if st != Ok { return; }
    }
    ghost var w := W1.Mag();
    st := MontMul(W1, C, N, mm, T);
    IntoForm(W1.Mag(), w, C.Mag(), n, |N.p|, a);
  }

  /** X = R mod N, the form of 1. */
  method FormOfOne(X: Mpi, C: Mpi, N: Mpi, mm: Limb, T: Mpi, ghost a: nat) returns (st: Status)
    requires X != C && X != N && X != T && T != C && T != N && IsSquareCache(C, N)
    requires MontgConst(N, mm) && |X.p| >= |N.p| + 1 && |T.p| >= 2 * |N.p| + 2
    modifies X, T`p
    ensures st == Ok || st == AllocFailed
    ensures st == Ok ==> Ready(X, N, mm, T) && Holds(X, a, 0, N) && X.s == 1
  {
    OddValue(N);
    CacheFits(C, N);
    CongRefl(1, N.Mag());
    assert Pow(a, 0) == 1;
    hide Val, Weight, Pow, Cong;
    st := X.Copy(C);
    if st != Ok { return; }
    ghost var x := X.Mag();
    st := MontRed(X, N, mm, T);
    IntoForm(X.Mag(), 1, x, N.Mag(), |N.p|, 1);
  }

  /** What the function returns: the power of the magnitude, taken from N when the base is negative and E odd. */
  ghost function ExpResult(negative: bool, a: nat, e: nat, n: nat): int
    requires n > 0
  {
    var r := Pow(a, e) % n;
    if negative && e % 2 == 1 then n - r else r
  }

  lemma {:induction false} PowOfNegative(a: int, e: nat)
    ensures Pow(-a, e) == if e % 2 == 0 then Pow(a, e) else -Pow(a, e)
  {
    if e != 0 { PowOfNegative(a, e - 1); }
  }

  /**
    The result is congruent to the power and at most N. It is the least residue except for a negative base and an
    odd exponent with which N, divided again and again by its common divisor with the base, comes down to 1.
  */
  lemma ExpResultIsPower(negative: bool, a: nat, e: nat, n: nat)
    requires n > 0
    ensures var v: int := if negative then 0 - a else a;
            var r := ExpResult(negative, a, e, n);
            && Cong(r, Pow(v, e), n) && 0 <= r <= n
            && (r == Pow(v, e) % n <==> !(negative && e % 2 == 1 && Exhausts(n, a, e)))
            && (r == n <==> negative && e % 2 == 1 && Exhausts(n, a, e))
  {
    var p := Pow(a, e);
    var v: int := if negative then 0 - a else a;
    PowOfNegative(a, e);
    CongMod(p, n);
    DividesPower(n, a, e);
    hide Pow, Exhausts;
    var r := p % n;
    if negative && e % 2 == 1 {
      CongRefl(0, n);
      CongAdd(0, 0, r, p, n);
      CongIntro(n - r, 0 - r, n, 1);
      CongTrans(n - r, 0 - r, 0 - p, n);
      if r != 0 { CongIsMod(n - r, -p, n); }
    } else {
      CongIsMod(r, p, n);
    }
  }

  /** A base coprime to the modulus gives the least residue. */
  lemma ExpOfCoprime(negative: bool, a: nat, e: nat, n: nat)
    requires n > 1 && Gcd(a, n) == 1
    ensures ExpResult(negative, a, e, n) == Pow(if negative then 0 - a else a, e) % n
  {
    CoprimeNeverExhausts(n, a, e);
    ExpResultIsPower(negative, a, e, n);
    hide *;
  }

  /** A negative multiple of the modulus with an odd exponent gives the modulus itself. */
  lemma ExpOfMultiple(a: nat, e: nat, n: nat)
    requires n > 0 && e % 2 == 1 && Divides(n, a)
    ensures ExpResult(true, a, e, n) == n
  {
    DivisorExhausts(n, a, e);
    ExpResultIsPower(true, a, e, n);
    hide *;
  }

  /** For a modulus no square divides these are the only ones. */
  lemma ExpSquareFree(negative: bool, a: nat, e: nat, n: nat)
    requires SquareFree(n)
    ensures ExpResult(negative, a, e, n) == Pow(if negative then 0 - a else a, e) % n <==>
      !(negative && e % 2 == 1 && Divides(n, a))
  {
    if e > 0 { SquareFreeExhausts(n, a, e); }
    ExpResultIsPower(negative, a, e, n);
    hide ExpResult, Pow, Exhausts;
  }

  /** The least such case: (-3)^1 modulo 3 gives 3. */
  lemma ExpExample()
    ensures ExpResult(true, 3, 1, 3) == 3 && Pow(-3, 1) % 3 == 0
  {
    assert Pow(3, 1) == 3 * Pow(3, 0) && Pow(-3, 1) == -3 * Pow(-3, 0);
  }

  /** The base without its sign. */
  method Positive(A: Mpi) returns (st: Status, L: Mpi)
    requires |A.p| > 0
    ensures L == A || fresh(L)
    ensures st == Ok || st == AllocFailed
    ensures st == Ok ==> L.s == 1 && L.Mag() == A.Mag() && |L.p| > 0
  {
    L := A;
    st := Ok;
    if A.s == -1 {
      L := new Mpi();
      st := L.Copy(A);
      if st != Ok { return; }
      L.s := 1;
    }
  }

  /** The caller's cache when it is filled; otherwise computed, and left with the caller. */
  method LoadCache(RR: Mpi?, N: Mpi) returns (st: Status, C: Mpi)
    requires RR != N && N.Value() > 0
    requires RR != null && |RR.p| > 0 ==> IsSquareCache(RR, N)
    modifies RR
    ensures fresh(C) && (st == Ok || st == AllocFailed)
    ensures st == Ok ==> IsSquareCache(C, N) && (RR != null ==> IsSquareCache(RR, N))
  {
    if RR == null || |RR.p| == 0 {
      st, C := SquareCache(N);
      if st != Ok { return; }
      if RR != null {
        RR.s, RR.p := C.s, C.p;
      }
    } else {
      C := new Mpi();
      C.s, C.p := RR.s, RR.p;
      st := Ok;
    }
  }

  lemma TableRoom(wsize: nat)
    requires 1 <= wsize <= WINDOW_SIZE
    ensures 1 < Pow(2, WINDOW_SIZE + 1) && Pow(2, wsize) <= Pow(2, WINDOW_SIZE + 1)
  {
    PowMonotonic(2, wsize, WINDOW_SIZE + 1);
    assert Pow(2, wsize) == 2 * Pow(2, wsize - 1);
  }

  /** Everything but the sign: X = |A|^E mod N. */
  method ExpMagnitude(X: Mpi, L: Mpi, E: Mpi, N: Mpi, C: Mpi) returns (st: Status)
    requires X != E && X != N && C != X && C != L && C != E && C != N
    requires L.s == 1 && |L.p| > 0 && N.s == 1 && |N.p| > 0 && N.p[0] % 2 == 1 && IsSquareCache(C, N)
    modifies X
    ensures st == Ok || st == AllocFailed
    ensures st == Ok ==> N.Mag() > 0 && X.Value() == Pow(old(L.Mag()), E.Mag()) % N.Mag() && X.s == 1 && |X.p| > 0
  {
    ghost var a := L.Mag();
    OddValue(N);
    hide Val, Weight, Pow, Cong, IsBitLen, Holds, IsSquareCache, IsMontProduct, InForm, Filled;
    var mm := MontgInit(N);
    var bits := BitLen(E);
    var wsize := WindowSize(bits);
    TableRoom(wsize);
    var W := EmptyTable(Pow(2, WINDOW_SIZE + 1));
    var T := new Mpi();
    st := X.Grow(|N.p| + 1);
    if st != Ok { return; }
    st := W[1].Grow(|N.p| + 1);
    if st != Ok { return; }
    st := T.Grow(2 * (|N.p| + 1));
    if st != Ok { return; }
    st := FirstEntry(W[1], L, C, N, mm, T);
    if st != Ok { return; }
    st := FormOfOne(X, C, N, mm, T, a);
    if st != Ok { return; }
    st := Exponentiate(X, W, E, N, mm, T, wsize, a);
    if st != Ok { return; }
    Finish(X, N, mm, T, a, E.Mag());
  }

  /** X = X / R: out of form. */
  method Finish(X: Mpi, N: Mpi, mm: Limb, T: Mpi, ghost a: nat, ghost e: nat)
    requires Ready(X, N, mm, T) && Holds(X, a, e, N)
    modifies X`p, T`p
    ensures N.Mag() > 0 && X.Mag() == Pow(a, e) % N.Mag() && |X.p| == old(|X.p|)
  {
    OddValue(N);
    hide Val, Weight, Pow, Cong, IsMontProduct;
    ghost var x := X.Mag();
    var st := MontRed(X, N, mm, T);
    OutOfForm(X.Mag(), x, N.Mag(), |N.p|, Pow(a, e));
  }

  /** X = A^E mod N. */
  method ExpMod(X: Mpi, A: Mpi, E: Mpi, N: Mpi, RR: Mpi?) returns (st: Status)
    requires X != E && X != N && RR != X && RR != A && RR != E && RR != N
    requires |A.p| > 0
    requires RR != null && |RR.p| > 0 && N.Value() > 0 ==> IsSquareCache(RR, N)
    modifies X, RR
    ensures st == Ok || st == AllocFailed || st == BadInput
    ensures st == BadInput <==> N.Value() <= 0 || N.Mag() % 2 == 0 || E.Value() < 0
    ensures st == Ok ==> X.Value() == ExpResult(old(A.s) == -1, old(A.Mag()), E.Mag(), N.Mag()) && |X.p| > 0
    ensures st == Ok && RR != null ==> IsSquareCache(RR, N)
  {
    BaseFacts();
    var c := CmpInt(N, 0);
    if c <= 0 {
      return BadInput;
    }
    NonEmpty(N.p);
    ValParity(N.p);
    if N.p[0] % 2 == 0 {
      return BadInput;
    }
    c := CmpInt(E, 0);
    if c < 0 {
      return BadInput;
    }
    var L, C;
    ghost var a := A.Mag();
    var neg := A.s == -1;
    hide Val, Weight, Pow, IsSquareCache;
    st, L := Positive(A);
    if st != Ok { return; }
    st, C := LoadCache(RR, N);
    if st != Ok { return; }
    st := ExpMagnitude(X, L, E, N, C);
    if st != Ok { return; }
    if |E.p| != 0 { ValParity(E.p); }
    if neg && |E.p| != 0 && E.p[0] % 2 != 0 {
      X.s := -1;
      st := AddMpi(X, N, X);
    }
  }
}
