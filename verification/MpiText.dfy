/** Numbers as text in the radices 2 to 16. */
module MpiText {
  import opened Arithmetic
  import opened Limbs
  import opened MpiCore
  import opened MpiAddSub
  import opened MpiShift
  import opened MpiMul
  import opened MpiDiv

  /** The largest `size_t`, taken to be as wide as a limb. */
  const SIZE_MAX: int := BASE - 1

  /** Bytes in a limb. */
  const LIMB_BYTES: nat := BIL / 8

  // ---------- numerals ----------

  /** The value of a digit character; 255 for any other. */
  function DigitOf(c: char): nat {
    if '0' <= c <= '9' then c as int - 0x30
    else if 'A' <= c <= 'F' then c as int - 0x37
    else if 'a' <= c <= 'f' then c as int - 0x57
    else 255
  }

  function DigitChar(d: nat): char
    requires d < 16
  {
    "0123456789ABCDEF"[d]
  }

  lemma DigitCharIs(d: nat)
    requires d < 16
    ensures DigitOf(DigitChar(d)) == d && DigitChar(d) != '-' && DigitChar(d) != '\0'
    ensures DigitChar(d) == if d < 10 then ('0' as int + d) as char else ('A' as int + (d - 10)) as char
  {}

  /** The digits of both cases, by their place among the letters. */
  lemma DigitOfLetters(k: nat)
    ensures k < 10 ==> DigitOf(('0' as int + k) as char) == k
    ensures k < 6 ==> DigitOf(('A' as int + k) as char) == 10 + k && DigitOf(('a' as int + k) as char) == 10 + k
  {}

  /** Every other character has no digit value. */
  lemma OtherCharacters(c: char)
    ensures DigitOf(c) < 16 <==> '0' <= c <= '9' || 'A' <= c <= 'F' || 'a' <= c <= 'f'
  {}

  /** The small letters replaced by the capital ones in the same place of the alphabet. */
  function UpperCase(s: string): (u: string)
    ensures |u| == |s| && forall i :: 0 <= i < |s| ==>
      u[i] == if 'a' <= s[i] <= 'z' then "ABCDEFGHIJKLMNOPQRSTUVWXYZ"[s[i] as int - 'a' as int] else s[i]
  {
    seq(|s|, i requires 0 <= i < |s| => if 'a' <= s[i] <= 'z' then (s[i] as int - 0x20) as char else s[i])
  }

  predicate IsNumeral(radix: nat, s: string) {
    forall i :: 0 <= i < |s| ==> DigitOf(s[i]) < radix
  }

  /** What a numeral denotes, its last digit having weight one. */
  ghost function Number(radix: nat, s: string): nat {
    if s == [] then 0 else Number(radix, s[..|s| - 1]) * radix + DigitOf(s[|s| - 1])
  }

  predicate Negative(s: string) {
    s != "" && s[0] == '-'
  }

  function Digits(s: string): string {
    if Negative(s) then s[1..] else s
  }

  predicate IsText(radix: nat, s: string) {
    IsNumeral(radix, Digits(s))
  }

  ghost function TextValue(radix: nat, s: string): int {
    Signed(if Negative(s) then -1 else 1, Number(radix, Digits(s)))
  }

  lemma {:induction false} NumberConcat(radix: nat, s: string, t: string)
    ensures Number(radix, s + t) == Number(radix, s) * Pow(radix, |t|) + Number(radix, t)
    decreases |t|
  {
    if t == [] {
      assert s + t == s;
    } else {
      var t', x := t[..|t| - 1], DigitOf(t[|t| - 1]);
      assert (s + t)[..|s + t| - 1] == s + t';
      NumberConcat(radix, s, t');
      Horner(Number(radix, s), Pow(radix, |t'|), Number(radix, t'), radix, x);
    }
  }

  lemma Horner(a: int, w: int, b: int, r: int, x: int)
    ensures (a * w + b) * r + x == a * (r * w) + (b * r + x)
  {}

  /** A text and its upper-case form are read alike. */
  lemma CaseDoesNotMatter(radix: nat, s: string)
    requires radix <= 16
    ensures IsText(radix, UpperCase(s)) <==> IsText(radix, s)
    ensures IsText(radix, s) ==> TextValue(radix, UpperCase(s)) == TextValue(radix, s)
  {
    assert Digits(UpperCase(s)) == UpperCase(Digits(s));
    SameNumeral(radix, Digits(s));
  }

  lemma {:induction false} SameNumeral(radix: nat, s: string)
    requires radix <= 16
    ensures IsNumeral(radix, UpperCase(s)) <==> IsNumeral(radix, s)
    ensures IsNumeral(radix, s) ==> Number(radix, UpperCase(s)) == Number(radix, s)
  {
    var u := UpperCase(s);
    assert forall i :: 0 <= i < |s| ==> (DigitOf(u[i]) < radix <==> DigitOf(s[i]) < radix);
    assert forall i :: 0 <= i < |s| && DigitOf(s[i]) < radix ==> DigitOf(u[i]) == DigitOf(s[i]);
    if s != [] {
      var t := s[..|s| - 1];
      SameNumeral(radix, t);
      assert u[..|u| - 1] == UpperCase(t);
    }
  }

  lemma NumberOne(radix: nat, c: char)
    ensures Number(radix, [c]) == DigitOf(c)
  {
    assert [c][..0] == [];
  }

  /** A digit in front adds its weight. */
  lemma NumberCons(radix: nat, c: char, t: string)
    ensures Number(radix, [c] + t) == DigitOf(c) * Pow(radix, |t|) + Number(radix, t)
  {
    NumberConcat(radix, [c], t);
    NumberOne(radix, c);
  }

  /** A digit behind multiplies by the radix. */
  lemma NumberSnoc(radix: nat, s: string, c: char)
    ensures Number(radix, s + [c]) == Number(radix, s) * radix + DigitOf(c)
  {
    assert (s + [c])[..|s|] == s;
  }

  lemma BadDigit(radix: nat, s: string, k: nat)
    requires k < |s| && DigitOf(s[k]) >= radix && (k == 0 ==> s[0] != '-')
    ensures !IsText(radix, s)
  {
    var t := Digits(s);
    assert t[if Negative(s) then k - 1 else k] == s[k];
  }

  // ---------- remainder by a small number ----------

  lemma AddMultiple(k: int, y: int, b: int)
    requires b > 0
    ensures (k * b + y) % b == y % b
  {
    var q, r := y / b, y % b;
    Distribute(b, k, q);
    DivModUnique(k * b + y, b, k + q, r);
  }

  /** A remainder may be taken before the next digit joins. */
  lemma ModStep(v: int, b: int, h: int, x: int)
    requires b > 0
    ensures ((v % b) * h + x) % b == (v * h + x) % b
  {
    var q, r := v / b, v % b;
    assert v == q * b + r;
    calc {
      v * h + x;
      (q * b + r) * h + x;
      (q * h) * b + (r * h + x);
    }
    AddMultiple(q * h, r * h + x, b);
  }

  lemma ModNegative(v: int, b: int)
    requires b > 0
    ensures (-v) % b == if v % b == 0 then 0 else b - v % b
  {
    var q, r := v / b, v % b;
    assert v == q * b + r;
    Distribute(b, q, 1);
    assert (-q) * b == -(q * b);
    if r == 0 {
      DivModUnique(-v, b, -q, 0);
    } else {
      assert (-q - 1) * b == -(q * b) - b;
      DivModUnique(-v, b, -q - 1, b - r);
    }
  }

  /** Half a limb joins the remainder, in limb arithmetic: the upper half of y leaves the limb and is lost. */
  ghost function HalfStep(y: Limb, d: nat, b: Limb): (r: Limb)
    requires b > 0
    ensures r < b
  {
    HalfTerm(y, d, b);
    ((y % HALF) * HALF + d) % b
  }

  lemma HalfTerm(y: Limb, d: nat, b: Limb)
    requires b > 0
    ensures HALF > 0 && 0 <= y % HALF && 0 <= (y % HALF) * HALF && 0 <= ((y % HALF) * HALF + d) % b < b
  {
    HalfSplit(y);
    BaseFacts();
    MulMono(HALF, 0, y % HALF);
  }

  ghost function Upper(x: Limb): Limb {
    HalvesAreLimbs(x);
    x / HALF
  }

  ghost function Lower(x: Limb): Limb {
    HalvesAreLimbs(x);
    x % HALF
  }

  lemma HalvesAreLimbs(x: Limb)
    ensures HALF > 0 && 0 <= x / HALF < HALF && 0 <= x % HALF < HALF && HALF <= BASE
  {
    HalfSplit(x);
    BaseFacts();
  }

  ghost function LimbStep(y: Limb, x: Limb, b: Limb): (r: Limb)
    requires b > 0
    ensures r < b
  {
    HalfStep(HalfStep(y, Upper(x), b), Lower(x), b)
  }

  /** The remainder as the loop makes it, two half limbs at a time from the top. */
  ghost function WordMod(p: seq<Limb>, b: Limb): (r: Limb)
    requires b > 0
    ensures r < b
  {
    if p == [] then 0 else LimbStep(WordMod(p[1..], b), p[0], b)
  }

  /** A divisor for which nothing is lost, or nothing that matters. */
  predicate SafeDivisor(b: int)
    requires b > 0
  {
    b <= HALF || BASE % b == 0
  }

  lemma HalfStepExact(y: Limb, d: nat, b: Limb)
    requires b > 0 && y < b && SafeDivisor(b)
    ensures HalfStep(y, d, b) == (y * HALF + d) % b
  {
    hide Pow;
    BaseFacts();
    HalfSplit(y);
    LowPart(y, y / HALF, y % HALF, HALF, d, b, BASE);
  }

  /** Nothing is lost, or a multiple of the limb base, which the divisor divides. */
  lemma LowPart(y: int, k: int, l: int, h: int, d: int, b: int, base: int)
    requires 0 <= y < b && y == k * h + l && 0 <= l < h && base == h * h && (b <= h || base % b == 0)
    ensures (l * h + d) % b == (y * h + d) % b
  {
    if b <= h {
      DivModUnique(y, h, k, l);
      DivModUnique(y, h, 0, y);
    } else {
      var m := base / b;
      assert base == b * m;
      LostMultiple(y, k, l, h, d, b, m);
    }
  }

  lemma LostMultiple(y: int, k: int, l: int, h: int, d: int, b: int, m: int)
    requires b > 0 && y == k * h + l && h * h == b * m
    ensures (l * h + d) % b == (y * h + d) % b
  {
    Halves(y, k, l, h);
    WholeDivisors(k, m, b);
    AddMultiple(k * m, l * h + d, b);
  }

  lemma Halves(y: int, k: int, l: int, h: int)
    requires y == k * h + l
    ensures y * h == k * (h * h) + l * h
  {}

  lemma WholeDivisors(k: int, m: int, b: int)
    ensures k * (b * m) == (k * m) * b
  {}

  lemma LimbStepExact(t: nat, x: Limb, b: Limb)
    requires b > 0 && SafeDivisor(b)
    ensures LimbStep(t % b, x, b) == (x + BASE * t) % b
  {
    hide HalfStep, SafeDivisor;
    BaseFacts();
    HalfSplit(x);
    HalfStepExact(t % b, x / HALF, b);
    HalfStepExact(HalfStep(t % b, x / HALF, b), x % HALF, b);
    LimbMod(t, x, x / HALF, x % HALF, HALF, b);
  }

  lemma {:induction false} WordModExact(p: seq<Limb>, b: Limb)
    requires b > 0 && SafeDivisor(b)
    ensures WordMod(p, b) == Val(p) % b
  {
    hide Val, LimbStep, SafeDivisor;
    if p == [] {
      ValZero(p);
      DivModUnique(0, b, 0, 0);
    } else {
      WordModExact(p[1..], b);
      ValLow(p);
      LimbStepExact(Val(p[1..]), p[0], b);
    }
  }

  lemma OneIsZero(w: Limb)
    requires w < 1
    ensures w == 0
  {}

  /** For other divisors already the limb base itself, a number of two limbs, gets a wrong remainder. */
  lemma BaseIsWrong(b: Limb)
    requires b > 0 && !SafeDivisor(b)
    ensures WordMod([0, 1], b) == 0 && Val([0, 1]) == BASE
  {
    BaseFacts();
    assert [0, 1][1..] == [1] && [1][1..] == [];
    assert Val([1]) == 1 + BASE * Val([]) && Val([0, 1]) == 0 + BASE * Val([1]);
    FirstSteps(b);
    WordModOf([], b);
    WordModOf([1], b);
    WordModOf([0, 1], b);
  }

  lemma FirstSteps(b: Limb)
    requires b > HALF
    ensures 1 < BASE && LimbStep(0, 1, b) == 1 && LimbStep(1, 0, b) == 0
  {
    BaseFacts();
    var h := HALF;
    DivModUnique(0, h, 0, 0);
    DivModUnique(1, h, 0, 1);
    DivModUnique(h, h, 1, 0);
    DivModUnique(0, b, 0, 0);
    DivModUnique(1, b, 0, 1);
    DivModUnique(h, b, 0, h);
  }

  /** The loop divides right, for every number, exactly with these divisors. */
  lemma RightForAll(b: Limb)
    requires b > 0
    ensures (forall p: seq<Limb> :: WordMod(p, b) == Val(p) % b) <==> SafeDivisor(b)
  {
    if SafeDivisor(b) {
      forall p: seq<Limb>
        ensures WordMod(p, b) == Val(p) % b
      {
        WordModExact(p, b);
      }
    } else {
      BaseIsWrong(b);
      assert WordMod([0, 1], b) != Val([0, 1]) % b;
    }
    hide Val, WordMod;
  }

  /** `y << biH | x >> biH`, reduced by a division. */
  method HalfMod(y: Limb, x: Limb, b: Limb) returns (r: Limb)
    requires b > 0
    ensures r == HalfStep(y, Upper(x), b)
  {
    hide ShiftLeft, ShiftRight, OrBits, Pow;
    HighHalf(x);
    HighHalf(y);
    HalfSplit(x);
    HalfSplit(y);
    LowTop(y % HALF, HALF);
    BaseFacts();
    OrIsSum(ShiftLeft(y, BIH), ShiftRight(x, BIH), BIH);
    var w := OrBits(ShiftLeft(y, BIH), ShiftRight(x, BIH));
    DivBounds(w, b);
    var z := w / b;
    DivModUnique(w, b, z, w - z * b);
    r := w - z * b;
  }

  lemma LowTop(l: int, h: int)
    requires 0 <= l < h
    ensures (l * h) % h == 0 && l * h + h <= h * h && l * h >= 0
  {
    Distribute(h, l, 1);
    MulMono(h, l + 1, h);
    MulMono(h, 0, l);
    DivModUnique(l * h, h, l, 0);
  }

  /** One limb joins the remainder, half by half. */
  lemma LimbMod(t: int, x: int, hi: int, lo: int, h: int, b: int)
    requires b > 0 && x == hi * h + lo
    ensures ((((t % b) * h + hi) % b) * h + lo) % b == (x + (h * h) * t) % b
  {
    ModStep(t, b, h, hi);
    ModStep(t * h + hi, b, h, lo);
    TwoDigits(t, hi, lo, h);
  }

  lemma TwoDigits(t: int, hi: int, lo: int, h: int)
    ensures (t * h + hi) * h + lo == hi * h + lo + (h * h) * t
  {
    calc {
      (t * h + hi) * h + lo;
      t * h * h + hi * h + lo;
      hi * h + lo + (h * h) * t;
    }
  }

  /** A mod b in limb arithmetic, exact for safe divisors; the case of two reads limb 0. */
  method ModInt(A: Mpi, b: SignedLimb) returns (st: Status, r: Limb)
    requires b == 2 ==> |A.p| > 0
    ensures st == if b == 0 then DivisionByZero else if b < 0 then NegativeValue else Ok
    ensures st == Ok ==> r == var w := WordMod(A.p, b); if A.s < 0 && w != 0 then b - w else w
    ensures st == Ok && SafeDivisor(b) ==> r == A.Value() % b
  {
    hide Val, Weight, Pow, HalfStep, LimbStep, SafeDivisor, Upper, Lower, ShiftLeft;
    if b == 0 { return DivisionByZero, 0; }
    if b < 0 { return NegativeValue, 0; }
    ModNegative(A.Mag(), b);
    if SafeDivisor(b) { WordModExact(A.p, b); }
    SmallIsSafe();
    hide WordMod;
    if b == 1 {
      OneIsZero(WordMod(A.p, 1));
      return Ok, 0;
    }
    if b == 2 {
      ValParity(A.p);
      return Ok, A.p[0] % 2;
    }
    BaseFacts();
    var y: Limb := 0;
    assert A.p[|A.p|..] == [];
    WordModOf([], b);
    for i := |A.p| downto 0
      invariant y == WordMod(A.p[i..], b)
    {
      var x := A.p[i];
      WordModOf(A.p[i..], b);
      assert A.p[i..][1..] == A.p[i + 1..] && A.p[i..][0] == x;
      LimbStepIs(y, x, b);
      ShiftedUpper(x);
      y := HalfMod(y, x, b);
      x := ShiftLeft(x, BIH);
      y := HalfMod(y, x, b);
    }
    assert A.p[0..] == A.p;
    if A.s < 0 && y != 0 { y := b - y; }
    return Ok, y;
  }

  lemma SmallIsSafe()
    ensures 16 <= HALF && forall b: int :: 0 < b <= 16 ==> SafeDivisor(b)
  {
    BaseFacts();
  }

  lemma WordModOf(p: seq<Limb>, b: Limb)
    requires b > 0
    ensures WordMod(p, b) == if p == [] then 0 else LimbStep(WordMod(p[1..], b), p[0], b)
  {
    hide LimbStep;
  }

  lemma LimbStepIs(y: Limb, x: Limb, b: Limb)
    requires b > 0
    ensures LimbStep(y, x, b) == HalfStep(HalfStep(y, Upper(x), b), Lower(x), b)
  {
    hide HalfStep;
  }

  lemma ShiftedUpper(x: Limb)
    ensures Upper(ShiftLeft(x, BIH)) == Lower(x)
  {
    HighHalf(x);
    HalvesAreLimbs(x);
    LowHalf((x % HALF) * HALF, x % HALF);
    hide Pow;
  }

  lemma LowHalf(x: int, t: int)
    requires 0 <= t < HALF && x == t * HALF
    ensures x / HALF == t
  {
    DivModUnique(x, HALF, t, 0);
  }

  // ---------- reading ----------

  /** Nibble j of a number lies in limb `j / n` with n nibbles to a limb. */
  lemma NibbleIndex(j: nat)
    ensures var n := 2 * LIMB_BYTES;
      n > 0 && 4 * (j % n) + 4 <= BIL && 4 * j == 4 * (j % n) + (j / n) * BIL && BIL * (j / n) <= 4 * j
  {
    var n := 2 * LIMB_BYTES;
    var q, r := j / n, j % n;
    assert 4 * n == BIL;
    assert j == n * q + r;
    MulAssoc(4, n, q);
  }

  lemma NibbleWeight(j: nat, q: nat, r: nat)
    requires 4 * j == 4 * r + q * BIL
    ensures Pow(16, j) == Pow(2, 4 * r) * Weight(q)
  {
    assert Pow(2, 4) == 16;
    hide Pow, Weight;
    PowMul(2, 4, j);
    PowAdd(2, 4 * r, q * BIL);
    WeightIsPow2(q);
  }

  /** A number below `h` limbs' weights has only a small limb at the top and none above. */
  lemma TopLimbSmall(p: seq<Limb>, q: nat, h: int)
    requires q < |p| && 1 <= h <= BASE && Val(p) < h * Weight(q)
    ensures p[q] < h
  {
    hide Val, Weight;
    ValDigit(p, q);
    ValLow(p[q..]);
    var v := Val(p[q..]);
    DivBounds(Val(p), Weight(q));
    if v >= h { MulMono(Weight(q), h, v); }
    MulMono(BASE, 0, Val(p[q..][1..]));
  }

  /** A digit shifted into the free bits of a limb. */
  lemma PowFour()
    ensures Pow(2, 4) == 16
  {}

  lemma DigitFits(d: nat, x: Limb, t: nat)
    requires d < 16 && t + 4 <= BIL && x < Pow(2, t)
    ensures d < BASE && ShiftLeft(d, t) == d * Pow(2, t)
    ensures OrBits(ShiftLeft(d, t), x) == d * Pow(2, t) + x < BASE
  {
    hide *;
    var h := Pow(2, t);
    BaseFacts();
    BaseIs();
    PowAdd(2, t, 4);
    PowFour();
    PowMonotonic(2, t + 4, BIL);
    MulMono(h, d + 1, 16);
    MulMono(h, 0, d);
    Distribute(h, d, 1);
    assert d * h + h <= BASE;
    DigitShifted(d, t);
    DivModUnique(d * h, h, d, 0);
    OrIsSum(d * h, x, t);
  }

  lemma DigitShifted(d: Limb, t: nat)
    requires 0 <= d * Pow(2, t) < BASE
    ensures ShiftLeft(d, t) == d * Pow(2, t)
  {
    hide Pow;
    DivModUnique(d * Pow(2, t), BASE, 0, d * Pow(2, t));
  }

  /** Puts hexadecimal digit j, counted from the low end, in its place. */
  method PutNibble(X: Mpi, j: nat, d: nat)
    requires d < 16 && j / (2 * LIMB_BYTES) < |X.p| && X.Mag() < Pow(16, j)
    modifies X`p
    ensures |X.p| == old(|X.p|) && X.Mag() == old(X.Mag()) + d * Pow(16, j)
  {
    hide Val, Weight, Pow, ShiftLeft, OrBits;
    var q, r := j / (2 * LIMB_BYTES), j % (2 * LIMB_BYTES);
    NibbleIndex(j);
    NibbleWeight(j, q, r);
    PowMonotonic(2, 4 * r, BIL);
    TopLimbSmall(X.p, q, Pow(2, 4 * r));
    DigitFits(d, X.p[q], 4 * r);
    var z := OrBits(ShiftLeft(d, 4 * r), X.p[q]);
    ValUpdate(X.p, q, z);
    MulAssoc(d, Pow(2, 4 * r), Weight(q));
    X.p := X.p[q := z];
  }

  lemma {:induction false} NumberBound(radix: nat, s: string)
    requires radix >= 1 && IsNumeral(radix, s)
    ensures Number(radix, s) < Pow(radix, |s|)
  {
    if s != [] {
      var t, d := s[..|s| - 1], DigitOf(s[|s| - 1]);
      NumberBound(radix, t);
      MulMono(radix, Number(radix, t) + 1, Pow(radix, |t|));
      Distribute(radix, Number(radix, t), 1);
    }
  }

  lemma SuffixCons(s: string, i: nat)
    requires 0 < i <= |s|
    ensures s[i - 1..] == [s[i - 1]] + s[i..]
  {}

  /** The room made for a string of digits holds the one that comes next. */
  lemma NibbleRoom(len: nat, j: nat, n: nat)
    requires j < len && n >= BitsToLimbs(4 * len)
    ensures j / (2 * LIMB_BYTES) < n
  {
    NibbleIndex(j);
    BitsFit(4 * len, n);
    MulMono(BIL, BitsToLimbs(4 * len), n);
    MulStrict(BIL, j / (2 * LIMB_BYTES), n);
  }

  /** Hexadecimal digits, from the last one. */
  method ReadHex(X: Mpi, s: string) returns (st: Status)
    modifies X
    ensures st == Ok || st == AllocFailed || st == InvalidCharacter
    ensures st == InvalidCharacter ==> !IsText(16, s)
    ensures st == Ok ==> IsText(16, s) && X.Value() == TextValue(16, s) && |X.p| > 0
  {
    hide Val, Number, Pow;
    var n := BitsToLimbs(4 * |s|);
    st := X.Grow(n);
    if st != Ok { return; }
    st := X.Lset(0);
    if st != Ok { return; }
    var i, j := |s|, 0;
    assert s[|s|..] == [];
    NumberEmpty(16);
    while i > 0
      invariant 0 <= i <= |s| && j == |s| - i && |X.p| >= n && |X.p| > 0
      invariant IsNumeral(16, s[i..]) && X.Mag() == Number(16, s[i..]) && X.s == 1
    {
      if i == 1 && s[i - 1] == '-' {
        X.s := -1;
        return Ok;
      }
      var d := DigitOf(s[i - 1]);
      if d >= 16 {
        BadDigit(16, s, i - 1);
        return InvalidCharacter;
      }
      NibbleRoom(|s|, j, |X.p|);
      NumberBound(16, s[i..]);
      SuffixCons(s, i);
      NumberCons(16, s[i - 1], s[i..]);
      PutNibble(X, j, d);
      i, j := i - 1, j + 1;
    }
    assert s[0..] == s;
    if s != "" { assert DigitOf(s[0]) < 16; }
    return Ok;
  }

  lemma NumberEmpty(radix: nat)
    ensures Number(radix, []) == 0
  {}

  /** One more digit of a text. */
  lemma TextStep(radix: nat, s: string, i: nat)
    requires i < |s| && radix <= 16 && DigitOf(s[i]) < radix && IsText(radix, s[..i])
    ensures IsText(radix, s[..i + 1]) && (Negative(s[..i + 1]) <==> Negative(s[..i]))
    ensures TextValue(radix, s[..i + 1])
      == TextValue(radix, s[..i]) * radix + (if Negative(s[..i]) then -1 else 1) * DigitOf(s[i])
  {
    var t, u, c := s[..i], s[..i + 1], s[i];
    assert u == t + [c];
    assert Negative(u) == Negative(t);
    assert Digits(u) == Digits(t) + [c];
    NumberSnoc(radix, Digits(t), c);
    hide *;
    SignedStep(if Negative(t) then -1 else 1, Number(radix, Digits(t)), radix, DigitOf(c));
  }

  lemma SignedStep(g: Sign, v: int, r: int, d: int)
    ensures Signed(g, v * r + d) == Signed(g, v) * r + g * d
  {
    assert (-v) * r == -(v * r);
  }

  /** Digits of any other radix, from the first one. */
  method ReadDigits(X: Mpi, radix: nat, s: string) returns (st: Status)
    requires 2 <= radix <= 16
    modifies X
    ensures st == Ok || st == AllocFailed || st == InvalidCharacter
    ensures st == InvalidCharacter ==> !IsText(radix, s)
    ensures st == Ok ==> IsText(radix, s) && X.Value() == TextValue(radix, s) && |X.p| > 0
  {
    hide Val, Number, IsText;
    BaseFacts();
    st := X.Lset(0);
    if st != Ok { return; }
    var T := new Mpi();
    EmptyText(radix, s);
    for i := 0 to |s|
      invariant |X.p| > 0 && T != X
      invariant X.s == if Negative(s[..i]) then -1 else 1
      invariant IsText(radix, s[..i]) && X.Value() == TextValue(radix, s[..i])
    {
      if i == 0 && s[i] == '-' {
        X.s := -1;
        SignText(radix, s);
        continue;
      }
      var d := DigitOf(s[i]);
      if d >= radix {
        BadDigit(radix, s, i);
        return InvalidCharacter;
      }
      TextStep(radix, s, i);
      st := MulInt(T, X, radix);
      if st != Ok { return; }
      if X.s == 1 {
        st := AddInt(X, T, d);
      } else {
        st := SubInt(X, T, d);
      }
      if st != Ok { return; }
    }
    assert s[..|s|] == s;
    return Ok;
  }

  lemma EmptyText(radix: nat, s: string)
    ensures IsText(radix, s[..0]) && TextValue(radix, s[..0]) == 0 && !Negative(s[..0])
  {
    NumberEmpty(radix);
  }

  lemma SignText(radix: nat, s: string)
    requires s != "" && s[0] == '-'
    ensures IsText(radix, s[..1]) && TextValue(radix, s[..1]) == 0 && Negative(s[..1])
  {
    assert Digits(s[..1]) == [];
    NumberEmpty(radix);
  }

  /** X = the number a text denotes. */
  method ReadString(X: Mpi, radix: int, s: string) returns (st: Status)
    modifies X
    ensures st in {Ok, AllocFailed, BadInput, InvalidCharacter}
    ensures st == BadInput <==> radix < 2 || radix > 16 || (radix == 16 && |s| > (BASE - 1) / 4)
    ensures st == InvalidCharacter ==> !IsText(radix, s)
    ensures st == Ok ==> IsText(radix, s) && X.Value() == TextValue(radix, s) && |X.p| > 0
  {
    if radix < 2 || radix > 16 { return BadInput; }
    if radix == 16 {
      if |s| > SIZE_MAX / 4 { return BadInput; }
      st := ReadHex(X, s);
    } else {
      st := ReadDigits(X, radix, s);
    }
  }

  // ---------- writing ----------

  /** The room asked for: digits, a sign and the terminating zero, rounded up to an even number. */
  function TextRoom(radix: nat, bits: nat): nat {
    var n := if radix >= 16 then bits / 4 else if radix >= 4 then bits / 2 else bits;
    n + 3 + (n + 3) % 2
  }

  /** Digits in any radix fit, one for each bit or pair of bits at most. */
  lemma DigitsFit(radix: nat, len: nat, m: nat, bits: nat)
    requires 2 <= radix < 16 && len >= 1 && m < Pow(2, bits)
    requires len == 1 || Pow(radix, len - 1) <= m
    ensures 1 + len + 1 <= TextRoom(radix, bits)
  {
    if len > 1 {
      if radix >= 4 {
        PowBase(4, radix, len - 1);
        PowMul(2, 2, len - 1);
        assert Pow(2, 2) == 4;
        PowStrict(2, 2 * (len - 1), bits);
      } else {
        PowBase(2, radix, len - 1);
        PowStrict(2, len - 1, bits);
      }
    }
  }

  lemma {:induction false} PowBase(x: nat, y: nat, n: nat)
    requires 1 <= x <= y
    ensures Pow(x, n) <= Pow(y, n)
  {
    if n > 0 {
      PowBase(x, y, n - 1);
      MulGrow(x, y, Pow(x, n - 1), Pow(y, n - 1));
    }
  }

  /** Hexadecimal text has two digits for every byte up to the highest one in use. */
  lemma BytesFit(f: nat, m: nat, bits: nat)
    requires m < Pow(2, bits) && (f == 0 || Pow(2, 8 * f) <= m)
    ensures 1 + 2 * (f + 1) + 1 <= TextRoom(16, bits)
  {
    if f > 0 { PowStrict(2, 8 * f, bits); }
  }

  /** The digits written so far and the number still to be written make up m. */
  ghost predicate Split(m: nat, x: nat, radix: nat, digits: string) {
    m == x * Pow(radix, |digits|) + Number(radix, digits) && IsNumeral(radix, digits)
  }

  lemma SplitStart(m: nat, radix: nat)
    ensures Split(m, m, radix, "")
  {}

  /** The lowest digit of what is left goes in front. */
  lemma SplitStep(m: nat, x: nat, radix: nat, digits: string)
    requires 2 <= radix <= 16 && Split(m, x, radix, digits)
    ensures x / radix >= 0 && 0 <= x % radix < radix && Split(m, x / radix, radix, [DigitChar(x % radix)] + digits)
  {
    hide *;
    QuotRem(x, radix);
    SplitDigit(m, x, x / radix, x % radix, radix, digits);
  }

  lemma QuotRem(x: nat, radix: nat)
    requires radix > 0
    ensures x / radix >= 0 && 0 <= x % radix < radix && x == (x / radix) * radix + x % radix
  {}

  lemma SplitDigit(m: nat, x: nat, q: nat, r: nat, radix: nat, digits: string)
    requires r < radix <= 16 && x == q * radix + r && Split(m, x, radix, digits)
    ensures Split(m, q, radix, [DigitChar(r)] + digits)
  {
    var c := DigitChar(r);
    DigitCharIs(r);
    PowSucc(radix, |digits|);
    hide Number, Pow, DigitChar, DigitOf;
    NumberCons(radix, c, digits);
    Regroup(m, x, q, r, radix, Pow(radix, |digits|), Number(radix, digits));
  }

  lemma PowSucc(x: int, n: nat)
    ensures Pow(x, n + 1) == x * Pow(x, n)
  {}

  lemma Regroup(m: int, x: int, q: int, r: int, radix: int, w: int, v: int)
    requires m == x * w + v && x == q * radix + r
    ensures m == q * (radix * w) + (r * w + v)
  {
    calc {
      (q * radix + r) * w + v;
      q * (radix * w) + (r * w + v);
    }
  }

  lemma SplitEnd(m: nat, radix: nat, digits: string)
    requires Split(m, 0, radix, digits)
    ensures IsNumeral(radix, digits) && Number(radix, digits) == m
  {}

  /** While something is left, the weight of the next digit does not exceed the number. */
  lemma SplitMore(m: nat, x: nat, radix: nat, digits: string)
    requires Split(m, x, radix, digits) && x > 0 && radix >= 1
    ensures Pow(radix, |digits|) <= m
  {
    MulMono(Pow(radix, |digits|), 1, x);
  }

  lemma SmallerQuotient(x: nat, radix: nat)
    requires radix >= 2 && x > 0
    ensures 0 <= x / radix < x
  {
    var q := x / radix;
    DivBounds(x, radix);
    if q < 0 { MulMono(radix, q + 1, 0); }
    MulMono(q, 2, radix);
  }

  /** The next digit, and the number without it. */
  method NextDigit(X: Mpi, radix: nat) returns (st: Status, c: char)
    requires 2 <= radix < 16 && X.s == 1 && (radix == 2 ==> |X.p| > 0)
    modifies X
    ensures st == Ok || st == AllocFailed
    ensures st == Ok ==>
      X.s == 1 && |X.p| > 0 && X.Mag() == old(X.Mag()) / radix && c == DigitChar(old(X.Mag()) % radix)
  {
    hide Val;
    BaseFacts();
    ghost var x := X.Mag();
    var r;
    st, r := ModInt(X, radix);
    c := '\0';
    if st != Ok { return; }
    st := DivInt(X, null, X, radix);
    if st != Ok { return; }
    SmallRemainder(x, radix);
    DigitCharIs(r);
    c := if r < 10 then ('0' as int + r) as char else ('A' as int + (r - 10)) as char;
  }

  lemma SmallRemainder(x: nat, radix: nat)
    requires radix > 0
    ensures 0 <= x % radix < radix && TruncQuot(x, radix) == x / radix
  {}

  /** Writes the digits from the end of the buffer, low ones first, then moves them to the front. */
  method WriteHelper(X: Mpi, radix: nat, buf: array<char>, p: nat) returns (st: Status, p': nat)
    requires 2 <= radix < 16 && p <= buf.Length && X.s == 1 && (radix == 2 ==> |X.p| > 0)
    modifies X, buf
    ensures st == Ok || st == AllocFailed || st == BufferTooSmall
    ensures buf[..p] == old(buf[..p])
    ensures st == BufferTooSmall ==> buf.Length == p || Pow(radix, buf.Length - p) <= old(X.Mag())
    ensures st == Ok ==> p < p' <= buf.Length && (p' - p == 1 || Pow(radix, p' - p - 1) <= old(X.Mag()))
    ensures st == Ok ==> IsNumeral(radix, buf[p..p']) && Number(radix, buf[p..p']) == old(X.Mag())
  {
    hide *;
    ghost var m := X.Mag();
    var buflen := buf.Length - p;
    var length, end := 0, buf.Length;
    p' := p;
    SplitStart(m, radix);
    assert buf[end..] == [];
    while true
      invariant length <= buflen && end == buf.Length - length && X.s == 1 && (radix == 2 ==> |X.p| > 0)
      invariant Split(m, X.Mag(), radix, buf[end..])
      invariant length > 0 ==> X.Mag() > 0
      invariant length <= 1 || Pow(radix, length - 1) <= m
      invariant buf[..p] == old(buf[..p])
      decreases X.Mag()
    {
      ghost var x, before := X.Mag(), buf[end..];
      if x > 0 {
        SplitMore(m, x, radix, before);
        SmallerQuotient(x, radix);
      }
      if length >= buflen { return BufferTooSmall, p; }
      SplitStep(m, x, radix, before);
      var c;
      st, c := NextDigit(X, radix);
      if st != Ok { return; }
      end := end - 1;
      buf[end] := c;
      assert buf[end..] == [c] + before;
      length := length + 1;
      SameSign(X);
      var z := CmpInt(X, 0);
      if z == 0 { break; }
    }
    ghost var digits := buf[end..];
    SplitEnd(m, radix, digits);
    MoveDown(buf, end, p);
    return Ok, p + length;
  }

  method MoveDown(buf: array<char>, from: nat, to: nat)
    requires to <= from <= buf.Length
    modifies buf
    ensures buf[..to] == old(buf[..to]) && buf[to..to + (buf.Length - from)] == old(buf[from..])
  {
    forall i | 0 <= i < buf.Length - from {
      buf[to + i] := buf[from + i];
    }
  }

  lemma SameSign(X: Mpi)
    requires X.s == 1
    ensures X.Value() == X.Mag() && (Sgn(X.Value() - 0) == 0 <==> X.Mag() == 0) && 0 < BASE
    ensures -BASE <= 0 && 0 < BASE
  {}

  // ---------- hexadecimal text, byte by byte ----------

  /** h is the number formed by the bytes from byte `pos` up. */
  ghost predicate TopBytes(p: seq<Limb>, pos: nat, h: nat) {
    h == Val(p) / Pow(2, 8 * pos)
  }

  /** Byte f of m, or one above it, is in use; byte 0 always is. */
  ghost predicate HasByte(m: nat, f: nat) {
    f == 0 || Pow(2, 8 * f) <= m
  }

  lemma NoBytes(p: seq<Limb>)
    ensures TopBytes(p, |p| * LIMB_BYTES, 0)
  {
    ValBound(p);
    WeightIsPow2(|p|);
    assert 8 * LIMB_BYTES == BIL;
    MulAssoc(8, LIMB_BYTES, |p|);
    assert 8 * (|p| * LIMB_BYTES) == |p| * BIL;
    DivModUnique(Val(p), Weight(|p|), 0, Val(p));
  }

  lemma AllBytes(p: seq<Limb>, h: nat)
    requires TopBytes(p, 0, h)
    ensures h == Val(p)
  {
    PowZero();
  }

  lemma LimbBytes(i: nat, j: nat)
    ensures 8 * LIMB_BYTES == BIL && LIMB_BYTES > 0 && 8 * (i * LIMB_BYTES + j) == i * BIL + 8 * j
    ensures (i + 1) * LIMB_BYTES == i * LIMB_BYTES + LIMB_BYTES
  {
    assert 8 * LIMB_BYTES == BIL;
    MulAssoc(8, LIMB_BYTES, i);
    Distribute(LIMB_BYTES, i, 1);
  }

  lemma ByteStays(q: int, g: int)
    ensures (q + 256 * g) % 256 == q % 256
  {
    AddMultiple(g, q, 256);
  }

  lemma Pow2Eight(k: nat)
    ensures Pow(2, k + 8) == 256 * Pow(2, k)
  {
    assert Pow(2, 8) == 256;
    PowAdd(2, k, 8);
  }

  /** Eight bits of the number, from bit `i * BIL + k` up, are eight bits of limb i. */
  lemma BitsOfLimb(p: seq<Limb>, i: nat, k: nat)
    requires i < |p| && k + 8 <= BIL
    ensures (Val(p) / Pow(2, i * BIL + k)) % 256 == ShiftRight(p[i], k) % 256
  {
    hide *;
    ValDigit(p, i);
    WeightIsPow2(i);
    ValLow(p[i..]);
    BaseIs();
    ShiftRightIs(p[i], k);
    var t, g := Val(p[i..][1..]), Pow(2, BIL - k - 8);
    PowAdd(2, i * BIL, k);
    DivDiv(Val(p), Pow(2, i * BIL), Pow(2, k));
    PowAdd(2, k, BIL - k);
    DigitShift(t, p[i], Pow(2, k), BIL - k);
    Pow2Eight(BIL - k - 8);
    MulAssoc(256, g, t);
    ByteStays(p[i] / Pow(2, k), g * t);
  }

  lemma BaseIs()
    ensures BASE == Pow(2, BIL) && BIL >= 16
  {}

  lemma ShiftRightIs(x: Limb, k: nat)
    ensures ShiftRight(x, k) == x / Pow(2, k)
  {}

  /** Byte `i * LIMB_BYTES + j` of the number is byte j of limb i. */
  lemma ByteOfLimb(p: seq<Limb>, i: nat, j: nat)
    requires i < |p| && j < LIMB_BYTES
    ensures (Val(p) / Pow(2, 8 * (i * LIMB_BYTES + j))) % 256 == ShiftRight(p[i], 8 * j) % 256
  {
    LimbBytes(i, j);
    hide *;
    BitsOfLimb(p, i, 8 * j);
  }

  lemma NextByte(v: nat, pos: nat)
    ensures v / Pow(2, 8 * pos) == 256 * (v / Pow(2, 8 * (pos + 1))) + (v / Pow(2, 8 * pos)) % 256
  {
    Pow2Eight(8 * pos);
    DivDiv(v, Pow(2, 8 * pos), 256);
    var a := v / Pow(2, 8 * pos);
    assert a == 256 * (a / 256) + a % 256;
  }

  /** One byte further down. */
  lemma ByteRead(p: seq<Limb>, i: nat, j: nat, h: nat)
    requires i < |p| && j < LIMB_BYTES && TopBytes(p, i * LIMB_BYTES + j + 1, h)
    ensures var c := ShiftRight(p[i], 8 * j) % 256;
      && 0 <= c < 256 && TopBytes(p, i * LIMB_BYTES + j, 256 * h + c)
      && (256 * h + c > 0 ==> HasByte(Val(p), i * LIMB_BYTES + j))
  {
    hide Val, Pow, ShiftRight;
    ByteOfLimb(p, i, j);
    NextByte(Val(p), i * LIMB_BYTES + j);
    var w, q := Pow(2, 8 * (i * LIMB_BYTES + j)), Val(p) / Pow(2, 8 * (i * LIMB_BYTES + j));
    DivBounds(Val(p), w);
    if q > 0 { MulMono(w, 1, q); }
  }

  /** The text of the top bytes: nothing as long as they are zero, else two digits for each from byte f down. */
  ghost predicate HexText(m: nat, pos: nat, h: nat, started: bool, f: nat, text: string) {
    && IsNumeral(16, text) && Number(16, text) == h
    && if started then pos <= f && |text| == 2 * (f + 1 - pos) && HasByte(m, f) else text == [] && h == 0
  }

  lemma HexStart(m: nat, pos: nat, f: nat)
    ensures HexText(m, pos, 0, false, f, [])
  {}

  lemma HexStep(m: nat, pos: nat, h: nat, started: bool, f: nat, text: string, c: nat)
    requires HexText(m, pos + 1, h, started, f, text) && c < 256 && (256 * h + c > 0 ==> HasByte(m, pos))
    ensures c / 16 < 16 && c % 16 < 16
    ensures c == 0 && !started && pos != 0 ==> HexText(m, pos, 256 * h + c, false, f, text)
    ensures !(c == 0 && !started && pos != 0) ==>
      HexText(m, pos, 256 * h + c, true, if started then f else pos, text + [DigitChar(c / 16), DigitChar(c % 16)])
  {
    var x, y := DigitChar(c / 16), DigitChar(c % 16);
    DigitCharIs(c / 16);
    DigitCharIs(c % 16);
    hide Number, Pow, DigitChar, DigitOf;
    NumberSnoc(16, text, x);
    NumberSnoc(16, text + [x], y);
    assert text + [x] + [y] == text + [x, y];
    assert 256 * h + c == (16 * h + c / 16) * 16 + c % 16;
  }

  lemma HexRoom(m: nat, pos: nat, h: nat, started: bool, f: nat, text: string)
    requires HexText(m, pos, h, started, f, text)
    ensures |text| <= 2 * (f + 1) && (started ==> HasByte(m, f)) && (!started ==> text == [])
    ensures started && pos == 0 ==> |text| == 2 * (f + 1)
  {}

  /** Whole bytes from the top, the leading zero ones left out; the number zero has one, and none if it has no limb. */
  method WriteHex(X: Mpi, buf: array<char>, p0: nat) returns (p: nat, ghost f: nat)
    requires p0 <= buf.Length
    requires forall f: nat :: HasByte(X.Mag(), f) ==> p0 + 2 * (f + 1) <= buf.Length
    modifies buf
    ensures buf[..p0] == old(buf[..p0])
    ensures if |X.p| == 0 then p == p0 else HasByte(X.Mag(), f) && p == p0 + 2 * (f + 1) <= buf.Length
    ensures IsNumeral(16, buf[p0..p]) && Number(16, buf[p0..p]) == X.Mag()
  {
    hide *;
    ghost var m := Val(X.p);
    Magnitude(X);
    var k := false;
    p, f := p0, 0;
    ghost var h: nat := 0;
    NoBytes(X.p);
    HexStart(m, |X.p| * LIMB_BYTES, f);
    assert buf[p0..p] == [];
    for i := |X.p| downto 0
      invariant p0 <= p <= buf.Length && buf[..p0] == old(buf[..p0])
      invariant TopBytes(X.p, i * LIMB_BYTES, h) && HexText(m, i * LIMB_BYTES, h, k, f, buf[p0..p])
      invariant i < |X.p| && i == 0 ==> k
      invariant i == |X.p| ==> !k
    {
      LimbBytes(i, 0);
      for j := LIMB_BYTES downto 0
        invariant p0 <= p <= buf.Length && buf[..p0] == old(buf[..p0])
        invariant TopBytes(X.p, i * LIMB_BYTES + j, h) && HexText(m, i * LIMB_BYTES + j, h, k, f, buf[p0..p])
        invariant i == 0 && j == 0 ==> k
      {
        var c := ShiftRight(X.p[i], 8 * j) % 256;
        ByteRead(X.p, i, j, h);
        ghost var pos, text := i * LIMB_BYTES + j, buf[p0..p];
        PlaceZero(i, j);
        HexStep(m, pos, h, k, f, text, c);
        h := 256 * h + c;
        if c == 0 && !k && i + j != 0 {
          continue;
        }
        if !k { f := pos; }
        HexRoom(m, pos, h, true, f, text + [DigitChar(c / 16), DigitChar(c % 16)]);
        ghost var was := buf[..];
        buf[p], buf[p + 1] := DigitChar(c / 16), DigitChar(c % 16);
        TwoMore(was, buf[..], p0, p, DigitChar(c / 16), DigitChar(c % 16));
        p := p + 2;
        k := true;
      }
    }
    PlaceZero(0, 0);
    AllBytes(X.p, h);
    HexRoom(m, 0, h, k, f, buf[p0..p]);
    if |X.p| > 0 { HexEnd(m, h, k, f, buf[p0..p]); } else { NoDigits(X.p); }
  }

  lemma TwoMore(was: string, now: string, p0: nat, p: nat, x: char, y: char)
    requires p0 <= p && p + 2 <= |was| && now == was[p := x][p + 1 := y]
    ensures now[p0..p + 2] == was[p0..p] + [x, y] && now[..p0] == was[..p0]
  {}

  lemma NoDigits(p: seq<Limb>)
    requires p == []
    ensures IsNumeral(16, "") && Number(16, "") == Val(p) == 0
  {}

  lemma Magnitude(X: Mpi)
    ensures X.Mag() == Val(X.p)
  {}

  lemma PlaceZero(i: nat, j: nat)
    ensures i * LIMB_BYTES + j == 0 <==> i + j == 0
    ensures LIMB_BYTES > 0
  {
    if i > 0 { MulMono(LIMB_BYTES, 1, i); }
  }

  lemma HexEnd(m: nat, h: nat, k: bool, f: nat, text: string)
    requires HexText(m, 0, h, k, f, text)
    ensures IsNumeral(16, text) && Number(16, text) == h
  {}

  // ---------- the whole text ----------

  lemma TextOf(radix: nat, negative: bool, digits: string)
    requires radix <= 16 && IsNumeral(radix, digits)
    ensures var s := if negative then ['-'] + digits else digits;
      IsText(radix, s) && TextValue(radix, s) == Signed(if negative then -1 else 1, Number(radix, digits))
  {
    if negative { assert (['-'] + digits)[1..] == digits; }
    if digits != [] { assert DigitOf(digits[0]) < 16; }
  }

  /**
    Writes a number as text that reads back as the same number. The one failure besides a bad radix is a
    buffer below the estimate, which is then reported; the estimate always leaves room for digits, sign and
    terminator.
  */
  method WriteString(X: Mpi, radix: int, buf: array<char>) returns (st: Status, olen: nat)
    requires radix == 2 ==> |X.p| > 0
    modifies buf
    ensures st in {Ok, AllocFailed, BadInput, BufferTooSmall}
    ensures st == BadInput <==> radix < 2 || radix > 16
    ensures forall bits: nat :: IsBitLen(X.Mag(), bits) ==>
      (st == BufferTooSmall <==> 2 <= radix <= 16 && buf.Length < TextRoom(radix, bits))
    ensures forall bits: nat :: st == BufferTooSmall && IsBitLen(X.Mag(), bits) ==> olen == TextRoom(radix, bits)
    ensures st == BufferTooSmall ==> buf[..] == old(buf[..])
    ensures st == Ok ==> 1 <= olen <= buf.Length && buf[olen - 1] == '\0' && (|X.p| > 0 ==> olen > 1)
    ensures st == Ok ==> IsText(radix, buf[..olen - 1]) && TextValue(radix, buf[..olen - 1]) == X.Value()
  {
    if radix < 2 || radix > 16 { return BadInput, 0; }
    var bits := BitLen(X);
    forall r: nat | IsBitLen(X.Mag(), r)
      ensures r == bits
    {
      BitLenUnique(X.Mag(), bits, r);
    }
    hide *;
    var n := Estimate(radix, bits);
    if buf.Length < n { return BufferTooSmall, n; }
    st, olen := WriteText(X, radix, buf, bits);
  }

  /** The estimate, step by step. */
  method Estimate(radix: nat, bits: nat) returns (n: nat)
    ensures n == TextRoom(radix, bits)
  {
    n := bits;
    if radix >= 4 { n := n / 2; }
    if radix >= 16 { n := n / 2; }
    n := n + 1;
    n := n + 1;
    n := n + 1;
    n := n + n % 2;
  }

  /** Sign, digits and terminator, in a buffer with enough room. */
  method WriteText(X: Mpi, radix: nat, buf: array<char>, ghost bits: nat) returns (st: Status, olen: nat)
    requires 2 <= radix <= 16 && (radix == 2 ==> |X.p| > 0)
    requires IsBitLen(X.Mag(), bits) && TextRoom(radix, bits) <= buf.Length
    modifies buf
    ensures st == Ok || st == AllocFailed
    ensures st == Ok ==> 1 <= olen <= buf.Length && buf[olen - 1] == '\0' && (|X.p| > 0 ==> olen > 1)
    ensures st == Ok ==> IsText(radix, buf[..olen - 1]) && TextValue(radix, buf[..olen - 1]) == X.Value()
  {
    hide *;
    RoomIs(radix, bits);
    var p := 0;
    if X.s == -1 {
      buf[p] := '-';
      p := 1;
    }
    ghost var p0, front := p, buf[..p];
    st, p := WriteDigits(X, radix, buf, p, bits);
    if st != Ok { return st, 0; }
    ghost var digits := buf[p0..p];
    assert buf[..p] == front + digits;
    TextOf(radix, X.s == -1, digits);
    ValueOf(X);
    assert front + digits == if X.s == -1 then ['-'] + digits else digits;
    ghost var text := buf[..p];
    buf[p] := '\0';
    assert buf[..p] == text;
    return Ok, p + 1;
  }

  lemma RoomIs(radix: nat, bits: nat)
    ensures
      var n := if radix >= 16 then bits / 2 / 2 else if radix >= 4 then bits / 2 else bits;
      TextRoom(radix, bits) == n + 3 + (n + 3) % 2 >= 4
  {}

  lemma ValueOf(X: Mpi)
    ensures X.Value() == Signed(if X.s == -1 then -1 else 1, X.Mag())
  {}

  /** The digits of the magnitude behind the sign; one more character still fits. */
  method WriteDigits(X: Mpi, radix: nat, buf: array<char>, p: nat, ghost bits: nat) returns (st: Status, p': nat)
    requires 2 <= radix <= 16 && (radix == 2 ==> |X.p| > 0) && p <= 1
    requires IsBitLen(X.Mag(), bits) && TextRoom(radix, bits) <= buf.Length
    modifies buf
    ensures st == Ok || st == AllocFailed
    ensures p <= buf.Length && buf[..p] == old(buf[..p])
    ensures st == Ok ==>
      p <= p' < buf.Length && (|X.p| > 0 ==> p < p') && IsNumeral(radix, buf[p..p'])
      && Number(radix, buf[p..p']) == X.Mag()
  {
    hide *;
    RoomIs(radix, bits);
    ghost var m := X.Mag();
    if radix == 16 {
      HexFits(m, bits, p, buf.Length);
      ghost var f;
      p', f := WriteHex(X, buf, p);
      st := Ok;
    } else {
      p' := p;
      var T := new Mpi();
      st := T.Copy(X);
      if st != Ok { return; }
      Magnitude(T);
      if T.s == -1 { T.s := 1; }
      Magnitude(T);
      DigitsRoom(radix, m, bits, p, buf.Length);
      st, p' := WriteHelper(T, radix, buf, p);
      if st == Ok { DigitsEnd(radix, m, bits, p, p', buf.Length); }
    }
  }

  lemma HexFits(m: nat, bits: nat, p: nat, room: nat)
    requires IsBitLen(m, bits) && p <= 1 && TextRoom(16, bits) <= room
    ensures forall f: nat :: HasByte(m, f) ==> p + 2 * (f + 1) + 1 <= room
  {
    forall f: nat | HasByte(m, f)
      ensures p + 2 * (f + 1) + 1 <= room
    {
      BytesFit(f, m, bits);
    }
  }

  /** The whole buffer is more than enough for the digits, so they never run out of room. */
  lemma DigitsRoom(radix: nat, m: nat, bits: nat, p: nat, room: nat)
    requires 2 <= radix < 16 && IsBitLen(m, bits) && p <= 1 && TextRoom(radix, bits) <= room
    ensures p < room && Pow(radix, room - p) > m
  {
    if Pow(radix, room - p) <= m { DigitsFit(radix, room - p + 1, m, bits); }
  }

  /** Behind the digits the terminator fits. */
  lemma DigitsEnd(radix: nat, m: nat, bits: nat, p: nat, q: nat, room: nat)
    requires 2 <= radix < 16 && IsBitLen(m, bits) && p <= 1 && TextRoom(radix, bits) <= room
    requires p < q <= room && (q - p == 1 || Pow(radix, q - p - 1) <= m)
    ensures q < room
  {
    DigitsFit(radix, q - p, m, bits);
  }
}
