/** The primes below 312, in order: the tables of this loader are made from them. */
module SmallPrimes {
  import opened Arithmetic

  // sixteen to a row
  const ROW0: seq<nat> := [2, 3, 5, 7, 11, 13, 17, 19, 23, 29, 31, 37, 41, 43, 47, 53]
  const ROW1: seq<nat> := [59, 61, 67, 71, 73, 79, 83, 89, 97, 101, 103, 107, 109, 113, 127, 131]
  const ROW2: seq<nat> := [137, 139, 149, 151, 157, 163, 167, 173, 179, 181, 191, 193, 197, 199, 211, 223]
  const ROW3: seq<nat> := [227, 229, 233, 239, 241, 251, 257, 263, 269, 271, 277, 281, 283, 293, 307, 311]

  function Prime(t: nat): nat
    requires t < 64
  {
    if t < 16 then ROW0[t] else if t < 32 then ROW1[t - 16] else if t < 48 then ROW2[t - 32] else ROW3[t - 48]
  }

  ghost predicate IsPrime(p: nat) {
    p >= 2 && forall d :: 2 <= d < p ==> p % d != 0
  }

  /** No prime up to 17 divides it but itself. */
  predicate Sieved(b: nat) {
    && b >= 2 && (b == 2 || b % 2 != 0) && (b == 3 || b % 3 != 0) && (b == 5 || b % 5 != 0) && (b == 7 || b % 7 != 0)
    && (b == 11 || b % 11 != 0) && (b == 13 || b % 13 != 0) && (b == 17 || b % 17 != 0)
  }

  /** Behind p, the number q is the next to pass the sieve. */
  predicate Next(p: nat, q: nat)
    decreases q - p
  {
    p < q && if p + 1 == q then Sieved(q) else !Sieved(p + 1) && Next(p + 1, q)
  }

  function Before(t: nat): nat
    requires t < 64
  {
    if t == 0 then 1 else Prime(t - 1)
  }

  lemma FirstValues()
    ensures Prime(0) == 2 && Prime(1) == 3 && Prime(2) == 5 && Prime(3) == 7
    ensures Prime(4) == 11 && Prime(5) == 13 && Prime(6) == 17 && Prime(7) == 19
  {}

  lemma FirstSieve()
    ensures Next(1, 2) && Next(2, 3) && Next(3, 5) && Next(5, 7)
    ensures Next(7, 11) && Next(11, 13) && Next(13, 17) && Next(17, 19)
  {}

  lemma FirstEight(t: nat)
    requires t < 8
    ensures Next(Before(t), Prime(t))
  {
    hide Next, Prime;
    FirstSieve();
    FirstValues();
  }

  lemma SecondValues()
    ensures Prime(8) == 23 && Prime(9) == 29 && Prime(10) == 31 && Prime(11) == 37
    ensures Prime(12) == 41 && Prime(13) == 43 && Prime(14) == 47 && Prime(15) == 53
  {}

  lemma SecondSieve()
    ensures Next(19, 23) && Next(23, 29) && Next(29, 31) && Next(31, 37)
    ensures Next(37, 41) && Next(41, 43) && Next(43, 47) && Next(47, 53)
  {}

  lemma SecondEight(t: nat)
    requires 8 <= t < 16
    ensures Next(Before(t), Prime(t))
  {
    hide Next, Prime;
    SecondSieve();
    FirstValues();
    SecondValues();
  }

  lemma ThirdValues()
    ensures Prime(16) == 59 && Prime(17) == 61 && Prime(18) == 67 && Prime(19) == 71
    ensures Prime(20) == 73 && Prime(21) == 79 && Prime(22) == 83 && Prime(23) == 89
  {}

  lemma ThirdSieve()
    ensures Next(53, 59) && Next(59, 61) && Next(61, 67) && Next(67, 71)
    ensures Next(71, 73) && Next(73, 79) && Next(79, 83) && Next(83, 89)
  {}

  lemma ThirdEight(t: nat)
    requires 16 <= t < 24
    ensures Next(Before(t), Prime(t))
  {
    hide Next, Prime;
    ThirdSieve();
    SecondValues();
    ThirdValues();
  }

  lemma FourthValues()
    ensures Prime(24) == 97 && Prime(25) == 101 && Prime(26) == 103 && Prime(27) == 107
    ensures Prime(28) == 109 && Prime(29) == 113 && Prime(30) == 127 && Prime(31) == 131
  {}

  lemma FourthSieve()
    ensures Next(89, 97) && Next(97, 101) && Next(101, 103) && Next(103, 107)
    ensures Next(107, 109) && Next(109, 113) && Next(113, 127) && Next(127, 131)
  {}

  lemma FourthEight(t: nat)
    requires 24 <= t < 32
    ensures Next(Before(t), Prime(t))
  {
    hide Next, Prime;
    FourthSieve();
    ThirdValues();
    FourthValues();
  }

  lemma FifthValues()
    ensures Prime(32) == 137 && Prime(33) == 139 && Prime(34) == 149 && Prime(35) == 151
    ensures Prime(36) == 157 && Prime(37) == 163 && Prime(38) == 167 && Prime(39) == 173
  {}

  lemma FifthSieve()
    ensures Next(131, 137) && Next(137, 139) && Next(139, 149) && Next(149, 151)
    ensures Next(151, 157) && Next(157, 163) && Next(163, 167) && Next(167, 173)
  {}

  lemma FifthEight(t: nat)
    requires 32 <= t < 40
    ensures Next(Before(t), Prime(t))
  {
    hide Next, Prime;
    FifthSieve();
    FourthValues();
    FifthValues();
  }

  lemma SixthValues()
    ensures Prime(40) == 179 && Prime(41) == 181 && Prime(42) == 191 && Prime(43) == 193
    ensures Prime(44) == 197 && Prime(45) == 199 && Prime(46) == 211 && Prime(47) == 223
  {}

  lemma SixthSieve()
    ensures Next(173, 179) && Next(179, 181) && Next(181, 191) && Next(191, 193)
    ensures Next(193, 197) && Next(197, 199) && Next(199, 211) && Next(211, 223)
  {}

  lemma SixthEight(t: nat)
    requires 40 <= t < 48
    ensures Next(Before(t), Prime(t))
  {
    hide Next, Prime;
    SixthSieve();
    FifthValues();
    SixthValues();
  }

  lemma SeventhValues()
    ensures Prime(48) == 227 && Prime(49) == 229 && Prime(50) == 233 && Prime(51) == 239
    ensures Prime(52) == 241 && Prime(53) == 251 && Prime(54) == 257 && Prime(55) == 263
  {}

  lemma SeventhSieve()
    ensures Next(223, 227) && Next(227, 229) && Next(229, 233) && Next(233, 239)
    ensures Next(239, 241) && Next(241, 251) && Next(251, 257) && Next(257, 263)
  {}

  lemma SeventhEight(t: nat)
    requires 48 <= t < 56
    ensures Next(Before(t), Prime(t))
  {
    hide Next, Prime;
    SeventhSieve();
    SixthValues();
    SeventhValues();
  }

  lemma EighthValues()
    ensures Prime(56) == 269 && Prime(57) == 271 && Prime(58) == 277 && Prime(59) == 281
    ensures Prime(60) == 283 && Prime(61) == 293 && Prime(62) == 307 && Prime(63) == 311
  {}

  lemma EighthSieve()
    ensures Next(263, 269) && Next(269, 271) && Next(271, 277) && Next(277, 281)
    ensures Next(281, 283) && Next(283, 293) && Next(293, 307) && Next(307, 311)
  {}

  lemma EighthEight(t: nat)
    requires 56 <= t < 64
    ensures Next(Before(t), Prime(t))
  {
    hide Next, Prime;
    EighthSieve();
    SeventhValues();
    EighthValues();
  }

  /** Every prime of the table is the next one behind the one before. */
  lemma InTurn(t: nat)
    requires t < 64
    ensures Next(Before(t), Prime(t))
  {
    hide Next, Prime, Before;
    if
    case t < 8 => FirstEight(t);
    case 8 <= t < 16 => SecondEight(t);
    case 16 <= t < 24 => ThirdEight(t);
    case 24 <= t < 32 => FourthEight(t);
    case 32 <= t < 40 => FifthEight(t);
    case 40 <= t < 48 => SixthEight(t);
    case 48 <= t < 56 => SeventhEight(t);
    case 56 <= t => EighthEight(t);
  }

  lemma {:induction false} NextMeans(p: nat, q: nat)
    requires Next(p, q)
    ensures p < q && Sieved(q) && forall b: nat :: p < b < q ==> !Sieved(b)
    decreases q - p
  {
    if p + 1 < q { NextMeans(p + 1, q); }
  }

  /** What passes the sieve below 18 * 18 is prime. */
  lemma SieveMeans(b: nat)
    requires b < 324
    ensures Sieved(b) <==> IsPrime(b)
  {
    if IsPrime(b) {
      PrimePasses(b);
    } else if Sieved(b) {
      var d: nat :| 2 <= d < b && b % d == 0;
      Cofactor(b, d, b / d);
      if d < 18 { NoSmallDivisor(b, d); } else { NoSmallDivisor(b, b / d); }
    }
  }

  lemma PrimePasses(b: nat)
    requires IsPrime(b)
    ensures Sieved(b)
  {
    assert b == 2 || b % 2 != 0;
    assert b == 3 || b % 3 != 0;
    assert b == 5 || b % 5 != 0;
    assert b == 7 || b % 7 != 0;
    assert b == 11 || b % 11 != 0;
    assert b == 13 || b % 13 != 0;
    assert b == 17 || b % 17 != 0;
  }

  lemma Cofactor(b: nat, d: nat, k: nat)
    requires 2 <= d < b < 324 && b % d == 0 && k == b / d
    ensures b % k == 0 && 2 <= k < b && (d < 18 || k < 18)
  {
    assert b == d * k;
    Factors(b, d, k);
    DivModUnique(b, k, d, 0);
  }

  lemma Factors(b: nat, d: nat, k: nat)
    requires b == d * k && 2 <= d < b < 324
    ensures 2 <= k < b && (d < 18 || k < 18)
  {
    if k < 2 {
      MulMono(d, k, 1);
    } else {
      MulMono(k, 2, d);
      if d >= 18 && k >= 18 { MulMono(d, 18, k); }
    }
  }

  /** A divisor below 18 has a prime divisor up to 17. */
  lemma NoSmallDivisor(b: nat, d: nat)
    requires Sieved(b) && 2 <= d < 18 && d < b
    ensures b % d != 0
  {
    if
    case d % 2 == 0 => Through(b, d, 2);
    case d % 3 == 0 => Through(b, d, 3);
    case d == 5 || d == 7 || d == 11 || d == 13 || d == 17 =>
  }

  lemma Through(b: nat, d: nat, p: nat)
    requires d > 0 && p > 0 && d % p == 0
    ensures b % d == 0 ==> b % p == 0
  {
    if b % d == 0 {
      var j, k := d / p, b / d;
      assert b == d * k && d == p * j;
      assert b == p * (j * k);
      assert b == (j * k) * p;
      DivModUnique(b, p, j * k, 0);
    }
  }

  lemma {:induction false} Ascending(s: nat, t: nat)
    requires s < t < 64
    ensures Prime(s) < Prime(t)
    decreases t
  {
    InTurn(t);
    NextMeans(Prime(t - 1), Prime(t));
    hide Prime, Next, Sieved;
    if s < t - 1 { Ascending(s, t - 1); }
  }

  /** What passes the sieve up to the t-th prime of the table is in the table. */
  lemma {:induction false} FindPrime(p: nat, t: nat) returns (s: nat)
    requires t < 64 && p <= Prime(t) && Sieved(p)
    ensures s <= t && Prime(s) == p
  {
    InTurn(t);
    NextMeans(Before(t), Prime(t));
    assert p > 1;
    hide Prime, Next, Sieved;
    s := t;
    if p != Prime(t) { s := FindPrime(p, t - 1); }
  }

  lemma LastPrime()
    ensures Prime(63) == 311 && Prime(53) == 251 && Prime(54) == 257
  {}

  /** The table holds the primes below 312, all of them and in order. */
  lemma Listed(p: nat)
    requires p < 312
    ensures IsPrime(p) <==> exists t: nat :: t < 64 && Prime(t) == p
  {
    SieveMeans(p);
    LastPrime();
    if IsPrime(p) { var t := FindPrime(p, 63); }
    if t: nat :| t < 64 && Prime(t) == p {
      InTurn(t);
      NextMeans(Before(t), p);
    }
  }
}
