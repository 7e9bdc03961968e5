/** Signed addition and subtraction over limb vectors, in place and under every aliasing of the operands. */
module MpiAddSub {
  import opened Arithmetic
  import opened Limbs
  import opened MpiCore

  function Carry(b: bool): Limb {
    BaseFacts();
    if b then 1 else 0
  }

  /** Adding a carry and then a limb, reading each carry off a wrapped comparison. */
  lemma AddCarry(x: Limb, t: Limb, c: Limb)
    requires c <= 1
    ensures var y := WrapAdd(x, c);
            var z := WrapAdd(y, t);
            (y < c) ==> z >= t
    ensures var y := WrapAdd(x, c);
            var z := WrapAdd(y, t);
            z + (Carry(y < c) + Carry(z < t)) * BASE == x + t + c
  {
    BaseFacts();
  }

  lemma SubBorrow(x: Limb, t: Limb, c: Limb)
    requires c <= 1
    ensures var y := WrapSub(x, c);
            (x < c) ==> y >= t
    ensures var y := WrapSub(x, c);
            WrapSub(y, t) - (Carry(y < t) + Carry(x < c)) * BASE == x - t - c
  {
    BaseFacts();
  }

  /** One limb step: replacing limb `i` and moving the carry up leaves the weighted total as it should be. */
  lemma StepUp(p: seq<Limb>, i: nat, z: Limb, c: int, c': int, t: int)
    requires i < |p| && z + c' * BASE == p[i] + t + c
    ensures Val(p[i := z]) + c' * Weight(i + 1) == Val(p) + c * Weight(i) + t * Weight(i)
  {
    hide Val, Weight;
    ValUpdate(p, i, z);
    WeightSucc(i);
    var x: int, y: int, w := p[i], z, Weight(i);
    calc {
      (y - x) * w + c' * (BASE * w);
      { MulAssoc(c', BASE, w); }
      (y - x) * w + (c' * BASE) * w;
      { Distribute(w, y - x, c' * BASE); }
      (t + c) * w;
      { Distribute(w, t, c); }
      c * w + t * w;
    }
  }

  lemma StepDown(p: seq<Limb>, i: nat, z: Limb, c: int, c': int, t: int)
    requires i < |p| && z - c' * BASE == p[i] - t - c
    ensures Val(p[i := z]) - c' * Weight(i + 1) == Val(p) - c * Weight(i) - t * Weight(i)
  {
    hide Val, Weight;
    StepUp(p, i, z, -c, -c', -t);
  }

  /** Adds the low `j` limbs of R to X. R may be X itself: limb `i` is read before it is written. */
  method AddLimbs(X: Mpi, R: Mpi, j: nat) returns (c: Limb)
    requires j <= |X.p| && j <= |R.p|
    modifies X`p
    ensures c <= 1 && |X.p| == old(|X.p|)
    ensures X.Mag() + c * Weight(j) == old(X.Mag() + Val(R.p[..j]))
  {
    hide Val, Weight;
    BaseFacts();
    var i := 0;
    c := 0;
    ghost var b0 := R.p;
    assert b0[..0] == [] && Val([]) == 0 by { ValZero([]); }
    while i < j
      invariant 0 <= i <= j <= |X.p| == old(|X.p|) && j <= |R.p| && c <= 1
      invariant forall k :: i <= k < j ==> R.p[k] == b0[k]
      invariant Val(X.p) + c * Weight(i) == old(X.Mag()) + Val(b0[..i])
    {
      var t := R.p[i];
      var x := X.p[i];
      var y := WrapAdd(x, c);
      var z := WrapAdd(y, t);
      AddCarry(x, t, c);
      StepUp(X.p, i, z, c, Carry(y < c) + Carry(z < t), t);
      ValPrefix(b0, i);
      c := Carry(y < c) + Carry(z < t);
      X.p := X.p[i := z];
      i := i + 1;
    }
  }

  /** Runs a carry up from limb `j`, growing X by a limb when it leaves the top. */
  method CarryUp(X: Mpi, j: nat, carry: Limb) returns (st: Status)
    requires j <= |X.p| && carry <= 1
    modifies X`p
    ensures st == Ok || st == AllocFailed
    ensures st == Ok ==> X.Mag() == old(X.Mag()) + carry * Weight(j) && |X.p| >= old(|X.p|)
  {
    hide Val, Weight;
    var i, c: Limb := j, carry;
    while c != 0
      invariant 0 <= i <= |X.p| && old(|X.p|) <= |X.p| && c <= 1
      invariant Val(X.p) + c * Weight(i) == old(X.Mag()) + carry * Weight(j)
      decreases c, |X.p| - i
    {
      if i >= |X.p| {
        st := X.Grow(i + 1);
        if st != Ok { return; }
        assert X.p[i] == 0;
      }
      var y := WrapAdd(X.p[i], c);
      BaseFacts();
      StepUp(X.p, i, y, c, Carry(y < c), 0);
      X.p := X.p[i := y];
      c := Carry(y < c);
      i := i + 1;
    }
    return Ok;
  }

  /** Unsigned addition: X = |A| + |B|. */
  method AddAbs(X: Mpi, A: Mpi, B: Mpi) returns (st: Status)
    modifies X
    ensures st == Ok || st == AllocFailed
    ensures st == Ok ==> X.Mag() == old(A.Mag() + B.Mag()) && X.s == 1
    ensures st == Ok && old(|A.p| > 0 && |B.p| > 0) ==> |X.p| >= old(|X.p|) && |X.p| > 0
  {
    hide Val, Weight;
    var L, R := A, B;
    if X == B {
      L, R := X, A;
    }
    if X != L {
      st := X.Copy(L);
      if st != Ok { return; }
    }
    X.s := 1;
    var j := SignificantLimbs(R.p);
    ghost var r0 := R.p;
    st := X.Grow(j);
    if st != Ok { return; }
    assert R.p[..j] == r0[..j];
    var c := AddLimbs(X, R, j);
    st := CarryUp(X, j, c);
  }

  /** Subtracts the low `n` limbs of `b`, then runs the borrow up: it ends inside the vector. */
  method SubHelper(n: nat, b: seq<Limb>, D: Mpi)
    requires n <= |b| && n <= |D.p| && Val(b[..n]) <= Val(D.p)
    modifies D`p
    ensures D.Mag() == old(D.Mag()) - Val(b[..n])
    ensures |D.p| == old(|D.p|)
  {
    hide Val, Weight;
    var i, c: Limb := 0, 0;
    assert b[..0] == [] && Val([]) == 0 by { ValZero([]); }
    while i < n
      invariant 0 <= i <= n && |D.p| == old(|D.p|) && c <= 1
      invariant Val(D.p) - c * Weight(i) == old(Val(D.p)) - Val(b[..i])
    {
      var x := D.p[i];
      var y := WrapSub(x, c);
      var z := WrapSub(y, b[i]);
      SubBorrow(x, b[i], c);
      ghost var c' := Carry(y < b[i]) + Carry(x < c);
      StepDown(D.p, i, z, c, c', b[i]);
      ValPrefix(b, i);
      c := Carry(y < b[i]) + Carry(x < c);
      D.p := D.p[i := z];
      i := i + 1;
    }
    while c != 0
      invariant 0 <= i <= |D.p| && |D.p| == old(|D.p|) && c <= 1
      invariant Val(D.p) - c * Weight(i) == old(Val(D.p)) - Val(b[..n])
      decreases |D.p| - i
    {
      ValBound(D.p);
      WeightStrict(i, |D.p|);
      var x := D.p[i];
      var z := WrapSub(x, c);
      BaseFacts();
      StepDown(D.p, i, z, c, Carry(x < c), 0);
      c := Carry(x < c);
      D.p := D.p[i := z];
      i := i + 1;
    }
  }

  /** Unsigned subtraction: X = |A| - |B|, refused when that is negative. */
  method SubAbs(X: Mpi, A: Mpi, B: Mpi) returns (st: Status)
    modifies X
    ensures st == Ok || st == AllocFailed || st == NegativeValue
    ensures st == NegativeValue <==> old(A.Mag() < B.Mag())
    ensures st == NegativeValue ==> X.s == old(X.s) && X.p == old(X.p)
    ensures st == Ok ==> X.Mag() == old(A.Mag() - B.Mag()) && X.s == 1
    ensures st == Ok && old(|A.p| > 0 && |B.p| > 0) ==> |X.p| >= old(|X.p|) && |X.p| > 0
  {
    hide Val, Weight;
    var cmp := CmpAbs(A, B);
    if cmp < 0 {
      return NegativeValue;
    }
    ghost var a, b := A.Mag(), B.Mag();
    var R := B;
    if X == B {
      R := new Mpi();
      st := R.Copy(B);
      if st != Ok { return; }
    }
    if X != A {
      st := X.Copy(A);
      if st != Ok { return; }
    }
    X.s := 1;
    var n := SignificantLimbs(R.p);
    if n > 0 {
      ValBound(X.p);
      WeightStrict(n - 1, |X.p|);
    }
    SubHelper(n, R.p, X);
    return Ok;
  }

  /** X = A + B. */
  method AddMpi(X: Mpi, A: Mpi, B: Mpi) returns (st: Status)
    modifies X
    ensures st == Ok || st == AllocFailed
    ensures st == Ok ==> X.Value() == old(A.Value() + B.Value())
    ensures st == Ok && old(A.s == B.s) ==> X.s == old(A.s)
    ensures st == Ok && old(|A.p| > 0 && |B.p| > 0) ==> |X.p| >= old(|X.p|) && |X.p| > 0
  {
    hide Val, Weight;
    var s := A.s;
    if A.s != B.s {
      var cmp := CmpAbs(A, B);
      if cmp >= 0 {
        st := SubAbs(X, A, B);
        if st != Ok { return; }
        X.s := s;
      } else {
        st := SubAbs(X, B, A);
        if st != Ok { return; }
        X.s := if s == 1 then -1 else 1;
      }
    } else {
      st := AddAbs(X, A, B);
      if st != Ok { return; }
      X.s := s;
    }
    return Ok;
  }

  /** X = A - B. */
  method SubMpi(X: Mpi, A: Mpi, B: Mpi) returns (st: Status)
    modifies X
    ensures st == Ok || st == AllocFailed
    ensures st == Ok ==> X.Value() == old(A.Value() - B.Value())
    ensures st == Ok && old(A.s != B.s) ==> X.s == old(A.s)
    ensures st == Ok && old(|A.p| > 0 && |B.p| > 0) ==> |X.p| >= old(|X.p|) && |X.p| > 0
  {
    hide Val, Weight;
    var s := A.s;
    if A.s == B.s {
      var cmp := CmpAbs(A, B);
      if cmp >= 0 {
        st := SubAbs(X, A, B);
        if st != Ok { return; }
        X.s := s;
      } else {
        st := SubAbs(X, B, A);
        if st != Ok { return; }
        X.s := if s == 1 then -1 else 1;
      }
    } else {
      st := AddAbs(X, A, B);
      if st != Ok { return; }
      X.s := s;
    }
    return Ok;
  }

  /** The one-limb operand that the `_int` entry points build on their stack. */
  method FromInt(z: SignedLimb) returns (B: Mpi)
    ensures fresh(B) && B.Value() == z && B.Mag() == Abs(z) && |B.p| == 1 && B.s == if z < 0 then -1 else 1
  {
    BaseFacts();
    B := new Mpi();
    B.s := if z < 0 then -1 else 1;
    B.p := [Abs(z)];
    ValOne(B.p[0]);
  }

  method AddInt(X: Mpi, A: Mpi, z: SignedLimb) returns (st: Status)
    modifies X
    ensures st == Ok || st == AllocFailed
    ensures st == Ok ==> X.Value() == old(A.Value()) + z
    ensures st == Ok && z >= 0 && old(A.s) == 1 ==> X.s == 1
    ensures st == Ok && old(|A.p| > 0) ==> |X.p| >= old(|X.p|) && |X.p| > 0
  {
    var B := FromInt(z);
    st := AddMpi(X, A, B);
  }

  method SubInt(X: Mpi, A: Mpi, z: SignedLimb) returns (st: Status)
    modifies X
    ensures st == Ok || st == AllocFailed
    ensures st == Ok ==> X.Value() == old(A.Value()) - z
    ensures st == Ok && z >= 0 && old(A.s) == -1 ==> X.s == -1
    ensures st == Ok && old(|A.p| > 0) ==> |X.p| >= old(|X.p|) && |X.p| > 0
  {
    var B := FromInt(z);
    st := SubMpi(X, A, B);
  }
}
