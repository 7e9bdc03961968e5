/** The multi-precision integer object: sign, limbs, and the operations that only move limbs. */
module MpiCore {
  import opened Arithmetic
  import opened Limbs

  /** Return codes. */
  datatype Status =
    | Ok
    | BadInput
    | InvalidCharacter
    | BufferTooSmall
    | NegativeValue
    | DivisionByZero
    | NotAcceptable
    | AllocFailed

  const MAX_LIMBS: nat := 10000

  type Sign = x: int | x == 1 || x == -1 witness 1

  /** A signed machine word, as passed by the `_int` entry points. */
  type SignedLimb = x: int | -BASE <= 2 * x < BASE witness 0

  function SignMul(s: Sign, t: Sign): Sign {
    if s == t then 1 else -1
  }

  function Sgn(x: int): int {
    if x < 0 then -1 else if x > 0 then 1 else 0
  }

  function Signed(s: Sign, v: int): int {
    if s == 1 then v else -v
  }

  function Zeros(n: nat): (z: seq<Limb>)
    ensures |z| == n && forall i :: 0 <= i < n ==> z[i] == 0
  {
    seq(n, _ => 0)
  }

  class Mpi {
    var s: Sign
    var p: seq<Limb>

    /** The magnitude. */
    ghost function Mag(): nat
      reads this
    {
      Val(p)
    }

    /** The integer denoted. */
    ghost function Value(): int
      reads this
    {
      Signed(s, Val(p))
    }

    constructor ()
      ensures s == 1 && p == []
    {
      s, p := 1, [];
    }

    method Free()
      modifies this
      ensures s == 1 && p == []
    {
      s, p := 1, [];
    }

    method Grow(limbs: nat) returns (st: Status)
      modifies this`p
      ensures st == Ok || st == AllocFailed
      ensures Mag() == old(Mag()) && |p| >= old(|p|) && p[..old(|p|)] == old(p)
      ensures st == Ok ==> |p| == if old(|p|) < limbs then limbs else old(|p|)
      ensures st == Ok ==> forall i :: old(|p|) <= i < |p| ==> p[i] == 0
      ensures limbs <= old(|p|) && limbs <= MAX_LIMBS ==> st == Ok
    {
      if limbs > MAX_LIMBS {
        return AllocFailed;
      }
      if |p| < limbs {
        if * {
          return AllocFailed;
        }
        ghost var was := p;
        p := p + Zeros(limbs - |p|);
        assert p[..|was|] == was;
        ValTrim(p, |was|);
      }
      return Ok;
    }

    /** Copying keeps the room already held, except that an empty source frees the target. */
    method Copy(Y: Mpi) returns (st: Status)
      modifies this
      ensures st == Ok || st == AllocFailed
      ensures st == Ok ==> Value() == old(Y.Value()) && Mag() == old(Y.Mag())
      ensures st == Ok && |old(Y.p)| > 0 ==> s == old(Y.s) && |p| >= old(|p|) && |p| > 0
      ensures st == Ok && |old(Y.p)| == 0 && Y != this ==> p == []
      ensures st == Ok && old(|p|) == 0 && |p| > 0 ==> |p| == 1 || p[|p| - 1] != 0
      ensures st == Ok && old(|p|) > 0 && |p| > old(|p|) ==> p[|p| - 1] != 0
      ensures st == Ok && Y != this && old(|p|) == 0 ==> |p| <= old(|Y.p|)
    {
      if this == Y {
        return Ok;
      }
      if |Y.p| == 0 {
        Free();
        return Ok;
      }
      var i := |Y.p| - 1;
      while i > 0 && Y.p[i] == 0
        invariant 0 <= i < |Y.p|
        invariant forall k :: i < k < |Y.p| ==> Y.p[k] == 0
      {
        i := i - 1;
      }
      i := i + 1;
      s := Y.s;
      if |p| < i {
        st := Grow(i);
        if st != Ok { return; }
      } else {
        p := p[..i] + Zeros(|p| - i);
      }
      p := Y.p[..i] + p[i..];
      assert p[..i] == Y.p[..i];
      ValTrim(p, i);
      ValTrim(Y.p, i);
      return Ok;
    }

    method Lset(z: SignedLimb) returns (st: Status)
      modifies this
      ensures st == Ok || st == AllocFailed
      ensures st == Ok ==> Value() == z && Mag() == Abs(z) && s == (if z < 0 then -1 else 1)
      ensures st == Ok ==> |p| == (if old(|p|) == 0 then 1 else old(|p|))
      ensures old(|p|) > 0 ==> st == Ok
    {
      st := Grow(1);
      if st != Ok { return; }
      BaseFacts();
      p := Zeros(|p|);
      p := p[0 := Abs(z)];
      s := if z < 0 then -1 else 1;
      ValTrim(p, 1);
      assert p[..1] == [p[0]];
      ValOne(p[0]);
    }
  }

  /** The number of limbs left when high zero limbs are dropped. */
  method SignificantLimbs(p: seq<Limb>) returns (n: nat)
    ensures n <= |p| && Val(p) == Val(p[..n])
    ensures forall k :: n <= k < |p| ==> p[k] == 0
    ensures n > 0 ==> p[n - 1] != 0 && Weight(n - 1) <= Val(p)
    ensures n == 0 <==> Val(p) == 0
  {
    n := |p|;
    while n > 0 && p[n - 1] == 0
      invariant 0 <= n <= |p|
      invariant forall k :: n <= k < |p| ==> p[k] == 0
    {
      n := n - 1;
    }
    ValTrim(p, n);
    if n > 0 { ValTop(p, n - 1); }
  }

  /** Compares limbs from the top; the first difference decides. */
  method CompareLimbs(p: seq<Limb>, q: seq<Limb>, n: nat) returns (r: int)
    requires n <= |p| && n <= |q|
    ensures r == Sgn(Val(p[..n]) - Val(q[..n]))
  {
    var i := n;
    while i > 0
      invariant 0 <= i <= n
      invariant p[i..n] == q[i..n]
    {
      if p[i - 1] != q[i - 1] {
        ghost var pn, qn := p[..n], q[..n];
        assert pn[i..] == p[i..n] && qn[i..] == q[i..n];
        if p[i - 1] > q[i - 1] {
          ValLess(qn, pn, i - 1);
          return 1;
        } else {
          ValLess(pn, qn, i - 1);
          return -1;
        }
      }
      assert p[i - 1..n] == [p[i - 1]] + p[i..n];
      assert q[i - 1..n] == [q[i - 1]] + q[i..n];
      i := i - 1;
    }
    assert p[..n] == p[0..n] && q[..n] == q[0..n];
    return 0;
  }

  /** More significant limbs means a larger magnitude. */
  lemma LongerIsLarger(p: seq<Limb>, i: nat, q: seq<Limb>, j: nat)
    requires j < i && Weight(i - 1) <= Val(p) && j <= |q| && Val(q) == Val(q[..j])
    ensures Val(q) < Val(p)
  {
    ValBound(q[..j]);
    WeightMono(j, i - 1);
  }

  method CmpAbs(X: Mpi, Y: Mpi) returns (r: int)
    ensures r == Sgn(X.Mag() - Y.Mag())
  {
    hide Val, Weight;
    var i := SignificantLimbs(X.p);
    var j := SignificantLimbs(Y.p);
    if i == 0 && j == 0 {
      return 0;
    }
    if i > j {
      LongerIsLarger(X.p, i, Y.p, j);
      return 1;
    }
    if j > i {
      LongerIsLarger(Y.p, j, X.p, i);
      return -1;
    }
    r := CompareLimbs(X.p, Y.p, i);
  }

  method CmpMpi(X: Mpi, Y: Mpi) returns (r: int)
    ensures r == Sgn(X.Value() - Y.Value())
  {
    hide Val, Weight;
    var i := SignificantLimbs(X.p);
    var j := SignificantLimbs(Y.p);
    if i == 0 && j == 0 {
      return 0;
    }
    if i > j {
      LongerIsLarger(X.p, i, Y.p, j);
      return X.s;
    }
    if j > i {
      LongerIsLarger(Y.p, j, X.p, i);
      return if Y.s == 1 then -1 else 1;
    }
    if X.s > 0 && Y.s < 0 {
      return 1;
    }
    if Y.s > 0 && X.s < 0 {
      return -1;
    }
    r := CompareLimbs(X.p, Y.p, i);
    r := if X.s == 1 then r else -r;
  }

  method CmpInt(X: Mpi, z: SignedLimb) returns (r: int)
    ensures r == Sgn(X.Value() - z)
  {
    BaseFacts();
    var Y := new Mpi();
    Y.s := if z < 0 then -1 else 1;
    Y.p := [Abs(z)];
    ValOne(Y.p[0]);
    r := CmpMpi(X, Y);
  }
}
