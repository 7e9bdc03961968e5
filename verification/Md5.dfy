/** MD5 (RFC 1321): the transform, and incremental hashing. */
module Md5 {
  import opened Arithmetic
  import opened BlockHash

  type Word = bv32

  /** The four registers, in the roles they play in the next step. */
  datatype Regs = Regs(a: Word, b: Word, c: Word, d: Word)

  // ---------- the step, as RFC 1321 states it (section 3.4) ----------

  function F(x: Word, y: Word, z: Word): Word {
    (x & y) | (!x & z)
  }

  function G(x: Word, y: Word, z: Word): Word {
    (x & z) | (y & !z)
  }

  function H(x: Word, y: Word, z: Word): Word {
    x ^ y ^ z
  }

  function I(x: Word, y: Word, z: Word): Word {
    y ^ (x | !z)
  }

  /** The function of each of the four rounds. */
  function Mix(t: nat, x: Word, y: Word, z: Word): Word {
    if t < 16 then F(x, y, z) else if t < 32 then G(x, y, z) else if t < 48 then H(x, y, z) else I(x, y, z)
  }

  function Rotl(x: Word, n: Word): Word
    requires 0 < n < 32
  {
    (x << n) | (x >> (32 - n))
  }

  /** Which message word a step takes. */
  function Index(t: nat): nat {
    if t < 16 then t else if t < 32 then (5 * t + 1) % 16 else if t < 48 then (3 * t + 5) % 16 else (7 * t) % 16
  }

  /** How far a step rotates. */
  function Amount(t: nat): (s: Word)
    ensures 0 < s < 32
  {
    var u := t % 4;
    if t < 16 then (if u == 0 then 7 else if u == 1 then 12 else if u == 2 then 17 else 22)
    else if t < 32 then (if u == 0 then 5 else if u == 1 then 9 else if u == 2 then 14 else 20)
    else if t < 48 then (if u == 0 then 4 else if u == 1 then 11 else if u == 2 then 16 else 23)
    else (if u == 0 then 6 else if u == 1 then 10 else if u == 2 then 15 else 21)
  }

  function Sine1(t: nat): Word {
    if t == 0 then 0xD76AA478
    else if t == 1 then 0xE8C7B756
    else if t == 2 then 0x242070DB
    else if t == 3 then 0xC1BDCEEE
    else if t == 4 then 0xF57C0FAF
    else if t == 5 then 0x4787C62A
    else if t == 6 then 0xA8304613
    else if t == 7 then 0xFD469501
    else if t == 8 then 0x698098D8
    else if t == 9 then 0x8B44F7AF
    else if t == 10 then 0xFFFF5BB1
    else if t == 11 then 0x895CD7BE
    else if t == 12 then 0x6B901122
    else if t == 13 then 0xFD987193
    else if t == 14 then 0xA679438E
    else if t == 15 then 0x49B40821
    else 0
  }

  function Sine2(t: nat): Word {
    if t == 16 then 0xF61E2562
    else if t == 17 then 0xC040B340
    else if t == 18 then 0x265E5A51
    else if t == 19 then 0xE9B6C7AA
    else if t == 20 then 0xD62F105D
    else if t == 21 then 0x02441453
    else if t == 22 then 0xD8A1E681
    else if t == 23 then 0xE7D3FBC8
    else if t == 24 then 0x21E1CDE6
    else if t == 25 then 0xC33707D6
    else if t == 26 then 0xF4D50D87
    else if t == 27 then 0x455A14ED
    else if t == 28 then 0xA9E3E905
    else if t == 29 then 0xFCEFA3F8
    else if t == 30 then 0x676F02D9
    else if t == 31 then 0x8D2A4C8A
    else 0
  }

  function Sine3(t: nat): Word {
    if t == 32 then 0xFFFA3942
    else if t == 33 then 0x8771F681
    else if t == 34 then 0x6D9D6122
    else if t == 35 then 0xFDE5380C
    else if t == 36 then 0xA4BEEA44
    else if t == 37 then 0x4BDECFA9
    else if t == 38 then 0xF6BB4B60
    else if t == 39 then 0xBEBFBC70
    else if t == 40 then 0x289B7EC6
    else if t == 41 then 0xEAA127FA
    else if t == 42 then 0xD4EF3085
    else if t == 43 then 0x04881D05
    else if t == 44 then 0xD9D4D039
    else if t == 45 then 0xE6DB99E5
    else if t == 46 then 0x1FA27CF8
    else if t == 47 then 0xC4AC5665
    else 0
  }

  function Sine4(t: nat): Word {
    if t == 48 then 0xF4292244
    else if t == 49 then 0x432AFF97
    else if t == 50 then 0xAB9423A7
    else if t == 51 then 0xFC93A039
    else if t == 52 then 0x655B59C3
    else if t == 53 then 0x8F0CCC92
    else if t == 54 then 0xFFEFF47D
    else if t == 55 then 0x85845DD1
    else if t == 56 then 0x6FA87E4F
    else if t == 57 then 0xFE2CE6E0
    else if t == 58 then 0xA3014314
    else if t == 59 then 0x4E0811A1
    else if t == 60 then 0xF7537E82
    else if t == 61 then 0xBD3AF235
    else if t == 62 then 0x2AD7D2BB
    else if t == 63 then 0xEB86D391
    else 0
  }

  /** The integer part of 2^32 times the absolute value of the sine of t + 1. */
  function T(t: nat): Word {
    if t < 16 then Sine1(t) else if t < 32 then Sine2(t) else if t < 48 then Sine3(t) else Sine4(t)
  }

  /** Addition modulo 2^32. */
  function Add(x: Word, y: Word): Word {
    x + y
  }

  /** Message word, least significant byte first. */
  function GetWord(b: seq<bv8>, i: nat): Word {
    if i + 3 < |b| then
      (b[i] as bv32) | ((b[i + 1] as bv32) << 8) | ((b[i + 2] as bv32) << 16) | ((b[i + 3] as bv32) << 24)
    else 0
  }

  /** One step; afterwards every register plays the next role. */
  function Turn(r: Regs, t: nat, x: Word): Regs {
    TurnBy(r, t, x, T(t), Amount(t))
  }

  function TurnBy(r: Regs, t: nat, x: Word, c: Word, s: Word): Regs
    requires 0 < s < 32
  {
    Regs(r.d, Add(r.b, Rotl(Add(r.a, Add(Mix(t, r.b, r.c, r.d), Add(x, c))), s)), r.b, r.c)
  }

  ghost function Steps(r: Regs, block: seq<bv8>, n: nat): Regs {
    if n == 0 then r else Turn(Steps(r, block, n - 1), n - 1, GetWord(block, 4 * Index(n - 1)))
  }

  function Sum(x: Regs, y: Regs): Regs {
    Regs(Add(x.a, y.a), Add(x.b, y.b), Add(x.c, y.c), Add(x.d, y.d))
  }

  ghost function Compress(r: Regs, block: seq<bv8>): Regs {
    Sum(r, Steps(r, block, 64))
  }

  // ---------- the step, as the code computes it ----------

  function F1(x: Word, y: Word, z: Word): Word {
    z ^ (x & (y ^ z))
  }

  function F2(x: Word, y: Word, z: Word): Word {
    F1(z, x, y)
  }

  function F3(x: Word, y: Word, z: Word): Word {
    x ^ y ^ z
  }

  function F4(x: Word, y: Word, z: Word): Word {
    y ^ (x | !z)
  }

  function Choice(round: nat, x: Word, y: Word, z: Word): Word {
    if round == 1 then F1(x, y, z) else if round == 2 then F2(x, y, z) else if round == 3 then F3(x, y, z)
      else F4(x, y, z)
  }

  lemma FByBits(x: bv32, y: bv32, z: bv32)
    ensures z ^ (x & (y ^ z)) == (x & y) | (!x & z)
  {}

  lemma GByBits(x: bv32, y: bv32, z: bv32)
    ensures y ^ (z & (x ^ y)) == (x & z) | (y & !z)
  {}

  lemma FirstForm(x: Word, y: Word, z: Word)
    ensures F1(x, y, z) == F(x, y, z)
  {
    FByBits(x, y, z);
  }

  lemma SecondForm(x: Word, y: Word, z: Word)
    ensures F2(x, y, z) == G(x, y, z)
  {
    GByBits(x, y, z);
  }

  lemma OtherForms(x: Word, y: Word, z: Word)
    ensures F3(x, y, z) == H(x, y, z) && F4(x, y, z) == I(x, y, z)
  {}

  /** The shortened forms are the functions of the standard. */
  lemma ShortForms(t: nat, x: Word, y: Word, z: Word)
    requires t < 64
    ensures Choice(t / 16 + 1, x, y, z) == Mix(t, x, y, z)
  {
    FirstForm(x, y, z);
    SecondForm(x, y, z);
    OtherForms(x, y, z);
    hide F, G, H, I, F1, F2, F3, F4;
  }

  lemma NextSteps(r: Regs, block: seq<bv8>, t: nat, w: Word, x: Word, y: Word, z: Word)
    requires Regs(w, x, y, z) == Steps(r, block, t)
    ensures Steps(r, block, t + 1)
      == Regs(z, Add(x, Rotl(Add(w, Add(Mix(t, x, y, z), Add(GetWord(block, 4 * Index(t)), T(t)))), Amount(t))), x, y)
  {
    hide T, Index, Amount, GetWord, Mix, Rotl, Add;
  }

  /** One line of the transform: `w` takes the place of the register it replaces. */
  method Step(round: nat, w: Word, x: Word, y: Word, z: Word, data: Word, s: Word, ghost r: Regs, ghost block: seq<bv8>,
          ghost t: nat)
    returns (w': Word)
    requires t < 64 && round == t / 16 + 1 && s == Amount(t) && Regs(w, x, y, z) == Steps(r, block, t)
    requires data == Add(GetWord(block, 4 * Index(t)), T(t))
    ensures Regs(z, w', x, y) == Steps(r, block, t + 1)
  {
    hide *;
    ShortForms(t, x, y, z);
    NextSteps(r, block, t, w, x, y, z);
    w' := Add(w, Add(Choice(round, x, y, z), data));
    w' := Rotl(w', s);
    AddSwap(w', x);
    w' := Add(w', x);
  }

  lemma AddSwap(x: Word, y: Word)
    ensures Add(x, y) == Add(y, x)
  {}

  /** What one line of the transform states: a message word, a constant and a rotation. */
  datatype Row = Row(k: nat, c: Word, s: Word)

  predicate IsRow(t: nat, row: Row) {
    row.k == Index(t) && row.c == T(t) && row.s == Amount(t)
  }

  lemma RowIs(t: nat, row: Row)
    requires IsRow(t, row)
    ensures row.k == Index(t) && row.c == T(t) && row.s == Amount(t) && 0 < row.s < 32
  {}

  /** Four lines: every register is replaced once, and the roles are back where they were. */
  method Four(round: nat, input: seq<bv8>, a0: Word, b0: Word, c0: Word, d0: Word, r0: Row, r1: Row, r2: Row, r3: Row,
          ghost r: Regs, ghost t: nat)
    returns (a: Word, b: Word, c: Word, d: Word)
    requires t % 4 == 0 && t < 64 && round == t / 16 + 1 && Regs(a0, b0, c0, d0) == Steps(r, input, t)
    requires IsRow(t, r0) && IsRow(t + 1, r1) && IsRow(t + 2, r2) && IsRow(t + 3, r3)
    ensures Regs(a, b, c, d) == Steps(r, input, t + 4)
  {
    hide *;
    a, b, c, d := a0, b0, c0, d0;
    RowIs(t, r0);
    RowIs(t + 1, r1);
    RowIs(t + 2, r2);
    RowIs(t + 3, r3);
    SameRound(t);
    a := Step(round, a, b, c, d, Add(GetWord(input, 4 * r0.k), r0.c), r0.s, r, input, t);
    d := Step(round, d, a, b, c, Add(GetWord(input, 4 * r1.k), r1.c), r1.s, r, input, t + 1);
    c := Step(round, c, d, a, b, Add(GetWord(input, 4 * r2.k), r2.c), r2.s, r, input, t + 2);
    b := Step(round, b, c, d, a, Add(GetWord(input, 4 * r3.k), r3.c), r3.s, r, input, t + 3);
  }

  lemma SameRound(t: nat)
    requires t % 4 == 0 && t < 64
    ensures t + 3 < 64 && (t + 1) / 16 == (t + 2) / 16 == (t + 3) / 16 == t / 16
  {}

  method Round1(input: seq<bv8>, a0: Word, b0: Word, c0: Word, d0: Word, ghost r: Regs)
    returns (a: Word, b: Word, c: Word, d: Word)
    requires Regs(a0, b0, c0, d0) == Steps(r, input, 0)
    ensures Regs(a, b, c, d) == Steps(r, input, 16)
  {
    hide Steps, Turn;
    a, b, c, d := a0, b0, c0, d0;
    a, b, c, d := Four(1, input, a, b, c, d, Row(0, 0xD76AA478, 7), Row(1, 0xE8C7B756, 12), Row(2, 0x242070DB, 17),
      Row(3, 0xC1BDCEEE, 22), r, 0);
    a, b, c, d := Four(1, input, a, b, c, d, Row(4, 0xF57C0FAF, 7), Row(5, 0x4787C62A, 12), Row(6, 0xA8304613, 17),
      Row(7, 0xFD469501, 22), r, 4);
    a, b, c, d := Four(1, input, a, b, c, d, Row(8, 0x698098D8, 7), Row(9, 0x8B44F7AF, 12), Row(10, 0xFFFF5BB1, 17),
      Row(11, 0x895CD7BE, 22), r, 8);
    a, b, c, d := Four(1, input, a, b, c, d, Row(12, 0x6B901122, 7), Row(13, 0xFD987193, 12), Row(14, 0xA679438E, 17),
      Row(15, 0x49B40821, 22), r, 12);
  }

  method Round2(input: seq<bv8>, a0: Word, b0: Word, c0: Word, d0: Word, ghost r: Regs)
    returns (a: Word, b: Word, c: Word, d: Word)
    requires Regs(a0, b0, c0, d0) == Steps(r, input, 16)
    ensures Regs(a, b, c, d) == Steps(r, input, 32)
  {
    hide Steps, Turn;
    a, b, c, d := a0, b0, c0, d0;
    a, b, c, d := Four(2, input, a, b, c, d, Row(1, 0xF61E2562, 5), Row(6, 0xC040B340, 9), Row(11, 0x265E5A51, 14),
      Row(0, 0xE9B6C7AA, 20), r, 16);
    a, b, c, d := Four(2, input, a, b, c, d, Row(5, 0xD62F105D, 5), Row(10, 0x02441453, 9), Row(15, 0xD8A1E681, 14),
      Row(4, 0xE7D3FBC8, 20), r, 20);
    a, b, c, d := Four(2, input, a, b, c, d, Row(9, 0x21E1CDE6, 5), Row(14, 0xC33707D6, 9), Row(3, 0xF4D50D87, 14),
      Row(8, 0x455A14ED, 20), r, 24);
    a, b, c, d := Four(2, input, a, b, c, d, Row(13, 0xA9E3E905, 5), Row(2, 0xFCEFA3F8, 9), Row(7, 0x676F02D9, 14),
      Row(12, 0x8D2A4C8A, 20), r, 28);
  }

  method Round3(input: seq<bv8>, a0: Word, b0: Word, c0: Word, d0: Word, ghost r: Regs)
    returns (a: Word, b: Word, c: Word, d: Word)
    requires Regs(a0, b0, c0, d0) == Steps(r, input, 32)
    ensures Regs(a, b, c, d) == Steps(r, input, 48)
  {
    hide Steps, Turn;
    a, b, c, d := a0, b0, c0, d0;
    a, b, c, d := Four(3, input, a, b, c, d, Row(5, 0xFFFA3942, 4), Row(8, 0x8771F681, 11), Row(11, 0x6D9D6122, 16),
      Row(14, 0xFDE5380C, 23), r, 32);
    a, b, c, d := Four(3, input, a, b, c, d, Row(1, 0xA4BEEA44, 4), Row(4, 0x4BDECFA9, 11), Row(7, 0xF6BB4B60, 16),
      Row(10, 0xBEBFBC70, 23), r, 36);
    a, b, c, d := Four(3, input, a, b, c, d, Row(13, 0x289B7EC6, 4), Row(0, 0xEAA127FA, 11), Row(3, 0xD4EF3085, 16),
      Row(6, 0x04881D05, 23), r, 40);
    a, b, c, d := Four(3, input, a, b, c, d, Row(9, 0xD9D4D039, 4), Row(12, 0xE6DB99E5, 11), Row(15, 0x1FA27CF8, 16),
      Row(2, 0xC4AC5665, 23), r, 44);
  }

  method Round4(input: seq<bv8>, a0: Word, b0: Word, c0: Word, d0: Word, ghost r: Regs)
    returns (a: Word, b: Word, c: Word, d: Word)
    requires Regs(a0, b0, c0, d0) == Steps(r, input, 48)
    ensures Regs(a, b, c, d) == Steps(r, input, 64)
  {
    hide Steps, Turn;
    a, b, c, d := a0, b0, c0, d0;
    a, b, c, d := Four(4, input, a, b, c, d, Row(0, 0xF4292244, 6), Row(7, 0x432AFF97, 10), Row(14, 0xAB9423A7, 15),
      Row(5, 0xFC93A039, 21), r, 48);
    a, b, c, d := Four(4, input, a, b, c, d, Row(12, 0x655B59C3, 6), Row(3, 0x8F0CCC92, 10), Row(10, 0xFFEFF47D, 15),
      Row(1, 0x85845DD1, 21), r, 52);
    a, b, c, d := Four(4, input, a, b, c, d, Row(8, 0x6FA87E4F, 6), Row(15, 0xFE2CE6E0, 10), Row(6, 0xA3014314, 15),
      Row(13, 0x4E0811A1, 21), r, 56);
    a, b, c, d := Four(4, input, a, b, c, d, Row(4, 0xF7537E82, 6), Row(11, 0xBD3AF235, 10), Row(2, 0x2AD7D2BB, 15),
      Row(9, 0xEB86D391, 21), r, 60);
  }

  lemma NoSteps(r: Regs, block: seq<bv8>)
    ensures Steps(r, block, 0) == r
  {}

  function View(buf: seq<Word>): Regs
    requires |buf| == 4
  {
    Regs(buf[0], buf[1], buf[2], buf[3])
  }

  /** Takes one block into the state. */
  method Transform(buf: array<Word>, input: seq<bv8>)
    requires buf.Length == 4 && |input| == 64
    modifies buf
    ensures View(buf[..]) == Compress(old(View(buf[..])), input)
  {
    hide Steps, Turn;
    ghost var r := View(buf[..]);
    NoSteps(r, input);
    var a, b, c, d := buf[0], buf[1], buf[2], buf[3];
    a, b, c, d := Round1(input, a, b, c, d, r);
    a, b, c, d := Round2(input, a, b, c, d, r);
    a, b, c, d := Round3(input, a, b, c, d, r);
    a, b, c, d := Round4(input, a, b, c, d, r);
    hide Add;
    buf[0] := Add(buf[0], a);
    buf[1] := Add(buf[1], b);
    buf[2] := Add(buf[2], c);
    buf[3] := Add(buf[3], d);
  }

  // ---------- messages ----------

  const WORDS: nat := 0x1_0000_0000

  ghost function Start(): Regs {
    Regs(0x67452301, 0xEFCDAB89, 0x98BADCFE, 0x10325476)
  }

  function PutWord(n: Word): seq<bv8> {
    [(n & 0xFF) as bv8, ((n >> 8) & 0xFF) as bv8, ((n >> 16) & 0xFF) as bv8, ((n >> 24) & 0xFF) as bv8]
  }

  lemma ByteOfWord(x: bv8, y: bv8, z: bv8, v: bv8)
    ensures PutWord((x as bv32) | ((y as bv32) << 8) | ((z as bv32) << 16) | ((v as bv32) << 24)) == [x, y, z, v]
  {}

  lemma BytesOfWord(n: Word)
    ensures GetWord(PutWord(n), 0) == n
  {}

  /** Reading and writing words are inverse to each other, at any place of the data. */
  lemma WordsAndBytes(b: seq<bv8>, i: nat, n: Word)
    requires i + 4 <= |b|
    ensures PutWord(GetWord(b, i)) == b[i..i + 4] && GetWord(PutWord(n), 0) == n
  {
    hide PutWord, GetWord;
    WordAt(b, i);
    BytesOfWord(n);
    FourBytes(b, i);
  }

  lemma FourBytes(b: seq<bv8>, i: nat)
    requires i + 4 <= |b|
    ensures b[i..i + 4] == [b[i], b[i + 1], b[i + 2], b[i + 3]]
  {}

  lemma WordAt(b: seq<bv8>, i: nat)
    requires i + 4 <= |b|
    ensures PutWord(GetWord(b, i)) == [b[i], b[i + 1], b[i + 2], b[i + 3]]
  {
    ByteOfWord(b[i], b[i + 1], b[i + 2], b[i + 3]);
    hide PutWord;
  }

  function Output(r: Regs): seq<bv8> {
    PutWord(r.a) + PutWord(r.b) + PutWord(r.c) + PutWord(r.d)
  }

  /** The length in bits, of which only the low 64 are kept. */
  ghost function BitLength(m: seq<bv8>): nat {
    (8 * |m|) % 0x1_0000_0000_0000_0000
  }

  /**
    The digest of a message (sections 3.1 to 3.5 of RFC 1321): pad it, absorb it block by block, write out the state.
  */
  ghost function Digest(m: seq<bv8>): seq<bv8> {
    Output(Absorb(Compress, Start(), Padded(m, LittleEndian64(BitLength(m)))))
  }

  /** The state has absorbed the whole blocks of m; the buffer begins with the rest. */
  ghost predicate Holds(st: seq<Word>, buf: seq<bv8>, m: seq<bv8>) {
    && |st| == 4 && |buf| == 64
    && View(st) == Absorb(Compress, Start(), m)
    && buf[..|Tail(m)|] == Tail(m)
  }

  lemma HoldsNothing(st: seq<Word>, buf: seq<bv8>)
    requires |st| == 4 && |buf| == 64 && View(st) == Start()
    ensures Holds(st, buf, [])
  {
    AbsorbOne(Compress, Start(), []);
    hide Absorb, Start, View, Compress;
  }

  lemma HoldsState(st: seq<Word>, buf: seq<bv8>, m: seq<bv8>)
    requires Holds(st, buf, m)
    ensures |st| == 4 && |buf| == 64 && View(st) == Absorb(Compress, Start(), m) && buf[..|Tail(m)|] == Tail(m)
  {}

  lemma HoldsBlock(st: seq<Word>, next: seq<Word>, buf: seq<bv8>, after: seq<bv8>, m: seq<bv8>, x: seq<bv8>)
    requires Holds(st, buf, m) && |Tail(m)| + |x| == 64 && |next| == 4 && |after| == 64
    requires View(next) == Compress(View(st), Tail(m) + x)
    ensures Holds(next, after, m + x) && Tail(m + x) == []
  {
    AbsorbMore(Compress, Start(), m, x);
    hide Tail, Absorb, View, Compress, Start;
  }

  lemma HoldsMore(st: seq<Word>, buf: seq<bv8>, after: seq<bv8>, m: seq<bv8>, x: seq<bv8>)
    requires Holds(st, buf, m) && |Tail(m)| + |x| < 64 && |after| == 64
    requires after[..|Tail(m)| + |x|] == Tail(m) + x
    ensures Holds(st, after, m + x)
  {
    AbsorbMore(Compress, Start(), m, x);
    hide Tail, Absorb, View, Compress, Start;
  }

  /** The two words count the bits, modulo 2^64. */
  ghost predicate Counts(bits0: nat, bits1: nat, m: seq<bv8>) {
    bits0 < WORDS && bits1 < WORDS && bits1 * WORDS + bits0 == BitLength(m)
  }

  lemma CountNothing()
    ensures Counts(0, 0, [])
  {}

  /** Shifting the low word tells how many bytes wait. */
  lemma Waiting(bits0: nat, bits1: nat, m: seq<bv8>)
    requires Counts(bits0, bits1, m)
    ensures (bits0 / 8) % 64 == |Tail(m)| < 64
  {
    TailLength(m);
    LowWord(bits0, bits1, |m|);
  }

  lemma BytesOfBits(bits: nat, m: int)
    requires bits == 8 * m
    ensures m >= 0 && bits / 8 == m
  {}

  lemma SameRest(m: nat, n: nat, z: int)
    requires n == m + 64 * z
    ensures m % 64 == n % 64
  {}

  lemma LowWord(bits0: nat, bits1: nat, n: nat)
    requires bits0 < 0x1_0000_0000 && bits1 * 0x1_0000_0000 + bits0 == (8 * n) % 0x1_0000_0000_0000_0000
    ensures (bits0 / 8) % 64 == n % 64
  {
    var k := (8 * n) / 0x1_0000_0000_0000_0000;
    var m := n - 0x2000_0000_0000_0000 * k - 0x2000_0000 * bits1;
    BytesOfBits(bits0, m);
    SameRest(m, n, 0x80_0000_0000_0000 * k + 0x80_0000 * bits1);
  }

  /** The carry out of the low word shows in a sum below the old one. */
  lemma CountOn(bits0: nat, bits1: nat, m: seq<bv8>, x: seq<bv8>)
    requires Counts(bits0, bits1, m) && |x| < WORDS
    ensures
      var low := (bits0 + (8 * |x|) % WORDS) % WORDS;
      var high := if low < bits0 then (bits1 + 1) % WORDS else bits1;
      Counts(low, (high + |x| / 0x2000_0000) % WORDS, m + x)
  {
    assert |m + x| == |m| + |x|;
    AddBits(bits0, bits1, |m|, |x|);
  }

  lemma AddBits(bits0: int, bits1: int, n: int, k: int)
    requires 0 <= bits0 < 0x1_0000_0000 && 0 <= bits1 < 0x1_0000_0000 && n >= 0 && 0 <= k < 0x1_0000_0000
    requires bits1 * 0x1_0000_0000 + bits0 == (8 * n) % 0x1_0000_0000_0000_0000
    ensures
      var low := (bits0 + (8 * k) % 0x1_0000_0000) % 0x1_0000_0000;
      var high := if low < bits0 then (bits1 + 1) % 0x1_0000_0000 else bits1;
      var top := (high + k / 0x2000_0000) % 0x1_0000_0000;
      0 <= low < 0x1_0000_0000 && 0 <= top < 0x1_0000_0000
        && top * 0x1_0000_0000 + low == (8 * (n + k)) % 0x1_0000_0000_0000_0000
  {
    var low := (bits0 + (8 * k) % 0x1_0000_0000) % 0x1_0000_0000;
    var c := LowSum(bits0, k);
    var high := if low < bits0 then (bits1 + 1) % 0x1_0000_0000 else bits1;
    var top := (high + k / 0x2000_0000) % 0x1_0000_0000;
    var e := HighSum(bits1, c, k / 0x2000_0000);
    Wrapped(8 * n, 8 * k, bits1 * 0x1_0000_0000 + bits0, top * 0x1_0000_0000 + low, e, 0x1_0000_0000_0000_0000);
  }

  lemma LowSum(bits0: int, k: int) returns (c: int)
    requires 0 <= bits0 < 0x1_0000_0000 && 0 <= k < 0x1_0000_0000
    ensures var low := (bits0 + (8 * k) % 0x1_0000_0000) % 0x1_0000_0000;
      c == (if low < bits0 then 1 else 0) && bits0 + 8 * k == (c + k / 0x2000_0000) * 0x1_0000_0000 + low
  {
    c := if (bits0 + (8 * k) % 0x1_0000_0000) % 0x1_0000_0000 < bits0 then 1 else 0;
  }

  lemma HighSum(bits1: int, c: int, h: int) returns (e: int)
    requires 0 <= bits1 < 0x1_0000_0000 && 0 <= c <= 1 && 0 <= h < 8
    ensures var high := if c == 1 then (bits1 + 1) % 0x1_0000_0000 else bits1;
      bits1 + c + h == (high + h) % 0x1_0000_0000 + e * 0x1_0000_0000
  {
    e := (bits1 + c + h) / 0x1_0000_0000;
  }

  lemma Wrapped(x: int, y: int, s: int, z: int, e: int, m: int)
    requires m > 0 && s == x % m && z == s + y - e * m && 0 <= z < m
    ensures z == (x + y) % m
  {
    var q := x / m;
    assert x == q * m + s;
    Distribute(m, q, e);
    DivModUnique(x + y, m, q + e, z);
  }

  lemma LengthBytes(bits0: nat, bits1: nat, m: seq<bv8>)
    requires Counts(bits0, bits1, m)
    ensures LittleEndian64(BitLength(m)) == LittleEndian(bits0) + LittleEndian(bits1)
    ensures |LittleEndian(bits0)| == 4 && |LittleEndian(bits1)| == 4
  {
    TwoHalves(bits1, bits0);
    hide LittleEndian64, BitLength;
  }

  class Context {
    const buf: array<Word>
    var bits0: nat
    var bits1: nat
    const input: array<bv8>
    ghost var message: seq<bv8>

    ghost predicate Shaped()
      reads this
    {
      buf.Length == 4 && input.Length == 64
    }

    /** State and buffer hold the message so far, and the counter its length. */
    ghost predicate Valid()
      reads this, buf, input
    {
      Shaped() && Holds(buf[..], input[..], message) && Counts(bits0, bits1, message)
    }

    constructor ()
      ensures Shaped() && fresh(buf) && fresh(input)
    {
      buf := new Word[4];
      input := new bv8[64];
    }

    method Init()
      requires Shaped()
      modifies this, buf
      ensures Valid() && message == []
    {
      buf[0] := 0x67452301;
      buf[1] := 0xEFCDAB89;
      buf[2] := 0x98BADCFE;
      buf[3] := 0x10325476;
      bits0, bits1 := 0, 0;
      message := [];
      HoldsNothing(buf[..], input[..]);
      CountNothing();
      hide Holds, Counts;
    }

    /** Copies bytes into the buffer. */
    method Fill(at: nat, data: seq<bv8>)
      requires Shaped() && at + |data| <= 64
      modifies input
      ensures input[..] == old(input[..at]) + data + old(input[at + |data|..])
    {
      forall i | 0 <= i < |data| {
        input[at + i] := data[i];
      }
    }

    /** Counts the bits of more bytes. */
    method Count(len: nat, ghost x: seq<bv8>)
      requires Counts(bits0, bits1, message) && len == |x| < WORDS
      modifies this`bits0, this`bits1
      ensures Counts(bits0, bits1, message + x)
    {
      hide Counts;
      CountOn(bits0, bits1, message, x);
      var t := bits0;
      bits0 := (t + (len * 8) % WORDS) % WORDS;
      if bits0 < t { bits1 := (bits1 + 1) % WORDS; }
      bits1 := (bits1 + len / 0x2000_0000) % WORDS;
    }

    /** Any split of a message leads to the same state: only the bytes so far count. */
    method Update(data: seq<bv8>)
      requires Valid() && |data| < WORDS
      modifies this, buf, input
      ensures Valid() && message == old(message) + data
    {
      hide Holds, Counts, View, Compress, Tail, Absorb;
      Waiting(bits0, bits1, message);
      HoldsState(buf[..], input[..], message);
      var t := (bits0 / 8) % 64;
      Count(|data|, data);
      var n := 0;
      assert message + data[..0] == message;
      if t > 0 {
        var room := 64 - t;
        if |data| < room {
          ghost var was := input[..];
          Fill(t, data);
          assert input[..t + |data|] == Tail(message) + data;
          HoldsMore(buf[..], was, input[..], message, data);
          message := message + data;
          return;
        }
        FillUp(t, data[..room]);
        n := room;
      }
      n := Blocks(data, n);
      KeepRest(data, n);
      message := message + data;
    }

    /** Fills the waiting block up and takes it in. */
    method FillUp(t: nat, data: seq<bv8>)
      requires Shaped() && Holds(buf[..], input[..], message) && t == |Tail(message)| && input[..t] == Tail(message)
      requires t + |data| == 64
      modifies buf, input
      ensures Holds(buf[..], input[..], message + data) && Tail(message + data) == []
    {
      hide Holds, View, Compress, Tail, Absorb;
      ghost var st, was := buf[..], input[..];
      Fill(t, data);
      assert input[..] == Tail(message) + data;
      Transform(buf, input[..]);
      HoldsBlock(st, buf[..], was, input[..], message, data);
    }

    /** Takes in whole blocks, each copied into the buffer first. */
    method Blocks(data: seq<bv8>, start: nat) returns (n: nat)
      requires Shaped() && start <= |data|
      requires Holds(buf[..], input[..], message + data[..start]) && Tail(message + data[..start]) == []
      modifies buf, input
      ensures start <= n <= |data| < n + 64
      ensures Holds(buf[..], input[..], message + data[..n]) && Tail(message + data[..n]) == []
    {
      hide *;
      n := start;
      while |data| - n >= 64
        invariant start <= n <= |data| && Shaped()
        invariant Holds(buf[..], input[..], message + data[..n]) && Tail(message + data[..n]) == []
      {
        NextBlock(data, n);
        n := n + 64;
      }
    }

    /** One whole block. */
    method NextBlock(data: seq<bv8>, n: nat)
      requires Shaped() && n + 64 <= |data|
      requires Holds(buf[..], input[..], message + data[..n]) && Tail(message + data[..n]) == []
      modifies buf, input
      ensures Holds(buf[..], input[..], message + data[..n + 64]) && Tail(message + data[..n + 64]) == []
    {
      hide Holds, View, Compress, Tail, Absorb;
      ghost var st, was, x := buf[..], input[..], data[n..n + 64];
      Fill(0, data[n..n + 64]);
      assert input[..] == Tail(message + data[..n]) + x;
      Transform(buf, input[..]);
      assert message + data[..n] + x == message + data[..n + 64];
      HoldsBlock(st, buf[..], was, input[..], message + data[..n], x);
    }

    /** Keeps what does not fill a block. */
    method KeepRest(data: seq<bv8>, n: nat)
      requires Shaped() && n <= |data| < n + 64
      requires Holds(buf[..], input[..], message + data[..n]) && Tail(message + data[..n]) == []
      modifies input
      ensures Holds(buf[..], input[..], message + data)
    {
      hide Holds, View, Compress, Tail, Absorb;
      ghost var was := input[..];
      Fill(0, data[n..]);
      assert message + data[..n] + data[n..] == message + data;
      assert input[..|data| - n] == Tail(message + data[..n]) + data[n..];
      HoldsMore(buf[..], was, input[..], message + data[..n], data[n..]);
    }

    /** Pads the message with its length and writes out the state: the digest of everything that was passed in. */
    method Final() returns (digest: seq<bv8>)
      requires Valid()
      modifies buf, input
      ensures digest == Digest(message)
    {
      hide Holds, Counts, View, Compress, Tail, Absorb, Padded, Start, Output;
      ghost var length := LittleEndian64(BitLength(message));
      Waiting(bits0, bits1, message);
      HoldsState(buf[..], input[..], message);
      PaddingBlocks(Compress, Start(), message, length);
      MakeRoom((bits0 / 8) % 64, Tail(message), length, Absorb(Compress, Start(), Padded(message, length)));
      AppendLength(length);
      Transform(buf, input[..]);
      digest := WriteOut();
    }

    /** The filler, with a block of its own when the length would not fit behind it. */
    method MakeRoom(waiting: nat, ghost tail: seq<bv8>, ghost length: seq<bv8>, ghost total: Regs)
      requires Shaped() && waiting < 64 && |length| == 8 && input[..waiting] == tail
      requires
        var used := waiting + 1;
        var open := tail + [0x80 as bv8];
        var mid := View(buf[..]);
        total == if used <= 56 then Compress(mid, open + Zeros(56 - used) + length)
          else Compress(Compress(mid, open + Zeros(64 - used)), Zeros(56) + length)
      modifies buf, input
      ensures Compress(View(buf[..]), input[..56] + length) == total
    {
      hide View, Compress;
      ghost var open := tail + [0x80 as bv8];
      var p := waiting;
      Fill(p, [0x80]);
      p := p + 1;
      assert input[..p] == open;
      var count := 64 - 1 - waiting;
      if count < 8 {
        Fill(p, Zeros(count));
        assert input[..] == open + Zeros(64 - p);
        Transform(buf, input[..]);
        Fill(0, Zeros(56));
        assert input[..56] == Zeros(56);
      } else {
        Fill(p, Zeros(count - 8));
        assert input[..56] == open + Zeros(56 - p);
      }
    }

    /** The two words of the count go behind the filler, low word first. */
    method AppendLength(ghost length: seq<bv8>)
      requires Shaped() && Counts(bits0, bits1, message) && length == LittleEndian64(BitLength(message))
      modifies input
      ensures input[..] == old(input[..56]) + length
    {
      LengthBytes(bits0, bits1, message);
      hide LittleEndian64, LittleEndian, BitLength, Counts;
      Fill(56, LittleEndian(bits0));
      Fill(60, LittleEndian(bits1));
      assert input[..] == old(input[..56]) + (LittleEndian(bits0) + LittleEndian(bits1));
    }

    method WriteOut() returns (digest: seq<bv8>)
      requires Shaped()
      ensures digest == Output(View(buf[..]))
    {
      hide PutWord;
      digest := PutWord(buf[0]) + PutWord(buf[1]) + PutWord(buf[2]) + PutWord(buf[3]);
    }
  }

  /** The largest chunk handed over at once. */
  const UINT_MAX: nat := 0xFFFF_FFFF

  /** The digest of data of any length, passed on in chunks. */
  method Compute(data: seq<bv8>) returns (md5sum: seq<bv8>)
    ensures md5sum == Digest(data)
  {
    hide Digest, Holds, Counts;
    var ctx := new Context();
    ctx.Init();
    var p, len := 0, |data|;
    while true
      invariant 0 <= len && p + len == |data| && ctx.Valid() && ctx.message == data[..p]
      invariant fresh(ctx) && fresh(ctx.buf) && fresh(ctx.input)
      decreases len
    {
      var chunkSize := if len < UINT_MAX then len else UINT_MAX;
      ctx.Update(data[p..p + chunkSize]);
      assert data[..p] + data[p..p + chunkSize] == data[..p + chunkSize];
      len := len - chunkSize;
      p := p + chunkSize;
      if len <= 0 { break; }
    }
    assert data[..p] == data;
    md5sum := ctx.Final();
  }
}
