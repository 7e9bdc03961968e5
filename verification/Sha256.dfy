/** SHA-256 and SHA-224 (FIPS 180-2): the two compiled forms of the compression, and incremental hashing. */
module Sha256 {
  import opened BlockHash

  type Word = bv32

  /** The eight working variables. */
  datatype Regs = Regs(a: Word, b: Word, c: Word, d: Word, e: Word, f: Word, g: Word, h: Word)

  // ---------- the round functions, as the standard writes them ----------

  function Ch(x: Word, y: Word, z: Word): Word {
    (x & y) ^ (!x & z)
  }

  function Maj(x: Word, y: Word, z: Word): Word {
    (x & y) ^ (x & z) ^ (y & z)
  }

  function Shr(x: Word, n: Word): Word
    requires n < 32
  {
    x >> n
  }

  function Rotr(x: Word, n: Word): Word
    requires 0 < n < 32
  {
    Shr(x, n) | (x << (32 - n))
  }

  function S0(x: Word): Word {
    Rotr(x, 7) ^ Rotr(x, 18) ^ Shr(x, 3)
  }

  function S1(x: Word): Word {
    Rotr(x, 17) ^ Rotr(x, 19) ^ Shr(x, 10)
  }

  function S2(x: Word): Word {
    Rotr(x, 2) ^ Rotr(x, 13) ^ Rotr(x, 22)
  }

  function S3(x: Word): Word {
    Rotr(x, 6) ^ Rotr(x, 11) ^ Rotr(x, 25)
  }

  const K0: seq<Word> := [
    0x428A2F98, 0x71374491, 0xB5C0FBCF, 0xE9B5DBA5, 0x3956C25B, 0x59F111F1, 0x923F82A4, 0xAB1C5ED5,
    0xD807AA98, 0x12835B01, 0x243185BE, 0x550C7DC3, 0x72BE5D74, 0x80DEB1FE, 0x9BDC06A7, 0xC19BF174]

  const K1: seq<Word> := [
    0xE49B69C1, 0xEFBE4786, 0x0FC19DC6, 0x240CA1CC, 0x2DE92C6F, 0x4A7484AA, 0x5CB0A9DC, 0x76F988DA,
    0x983E5152, 0xA831C66D, 0xB00327C8, 0xBF597FC7, 0xC6E00BF3, 0xD5A79147, 0x06CA6351, 0x14292967]

  const K2: seq<Word> := [
    0x27B70A85, 0x2E1B2138, 0x4D2C6DFC, 0x53380D13, 0x650A7354, 0x766A0ABB, 0x81C2C92E, 0x92722C85,
    0xA2BFE8A1, 0xA81A664B, 0xC24B8B70, 0xC76C51A3, 0xD192E819, 0xD6990624, 0xF40E3585, 0x106AA070]

  const K3: seq<Word> := [
    0x19A4C116, 0x1E376C08, 0x2748774C, 0x34B0BCB5, 0x391C0CB3, 0x4ED8AA4A, 0x5B9CCA4F, 0x682E6FF3,
    0x748F82EE, 0x78A5636F, 0x84C87814, 0x8CC70208, 0x90BEFFFA, 0xA4506CEB, 0xBEF9A3F7, 0xC67178F2]

  /** The constants of the rounds, sixteen to a row. */
  function K(t: nat): Word {
    if t < 16 then K0[t] else if t < 32 then K1[t - 16] else if t < 48 then K2[t - 32] else if t < 64 then K3[t - 48]
    else 0
  }

  /** The t-th message word, most significant byte first. */
  function GetWord(b: seq<bv8>, i: nat): Word {
    if i + 3 < |b| then
      ((b[i] as bv32) << 24) | ((b[i + 1] as bv32) << 16) | ((b[i + 2] as bv32) << 8) | (b[i + 3] as bv32)
    else 0
  }

  function Expand(w2: Word, w7: Word, w15: Word, w16: Word): Word {
    S1(w2) + w7 + S0(w15) + w16
  }

  /** The message schedule (section 6.2.2, step 1). */
  ghost function Schedule(block: seq<bv8>, t: nat): Word {
    if t < 16 then GetWord(block, 4 * t)
    else Expand(Schedule(block, t - 2), Schedule(block, t - 7), Schedule(block, t - 15), Schedule(block, t - 16))
  }

  /** Addition modulo 2^32. */
  function Add(x: Word, y: Word): Word {
    x + y
  }

  function Add5(v: Word, w: Word, x: Word, y: Word, z: Word): Word {
    v + w + x + y + z
  }

  function T1(e: Word, f: Word, g: Word, h: Word, k: Word, w: Word): Word {
    Add5(h, S3(e), Ch(e, f, g), k, w)
  }

  function T2(a: Word, b: Word, c: Word): Word {
    Add(S2(a), Maj(a, b, c))
  }

  /** One round: every variable moves on by one place (section 6.2.2, step 3). */
  function Round(r: Regs, k: Word, w: Word): Regs {
    var t1 := T1(r.e, r.f, r.g, r.h, k, w);
    Regs(Add(t1, T2(r.a, r.b, r.c)), r.a, r.b, r.c, Add(r.d, t1), r.e, r.f, r.g)
  }

  ghost function Rounds(r: Regs, block: seq<bv8>, n: nat): Regs {
    if n == 0 then r else Round(Rounds(r, block, n - 1), K(n - 1), Schedule(block, n - 1))
  }

  function Sum(x: Regs, y: Regs): Regs {
    Regs(Add(x.a, y.a), Add(x.b, y.b), Add(x.c, y.c), Add(x.d, y.d), Add(x.e, y.e), Add(x.f, y.f), Add(x.g, y.g),
      Add(x.h, y.h))
  }

  ghost function Compress(r: Regs, block: seq<bv8>): Regs {
    Sum(r, Rounds(r, block, 64))
  }

  // ---------- the round functions, as the code computes them ----------

  function F0(x: Word, y: Word, z: Word): Word {
    (x & y) | (z & (x | y))
  }

  function F1(x: Word, y: Word, z: Word): Word {
    z ^ (x & (y ^ z))
  }

  lemma MajByBits(x: bv32, y: bv32, z: bv32)
    ensures (x & y) | (z & (x | y)) == (x & y) ^ (x & z) ^ (y & z)
  {}

  lemma ChByBits(x: bv32, y: bv32, z: bv32)
    ensures z ^ (x & (y ^ z)) == (x & y) ^ (!x & z)
  {}

  /** The shortened forms of the two choice functions. */
  lemma ShortForms(x: Word, y: Word, z: Word)
    ensures F0(x, y, z) == Maj(x, y, z) && F1(x, y, z) == Ch(x, y, z)
  {
    MajByBits(x, y, z);
    ChByBits(x, y, z);
  }

  function CodeT1(e: Word, f: Word, g: Word, h: Word, k: Word, w: Word): Word {
    Add5(h, S3(e), F1(e, f, g), k, w)
  }

  function CodeT2(a: Word, b: Word, c: Word): Word {
    Add(S2(a), F0(a, b, c))
  }

  lemma ShortT1(e: Word, f: Word, g: Word, h: Word, k: Word, w: Word)
    ensures CodeT1(e, f, g, h, k, w) == T1(e, f, g, h, k, w)
  {
    ShortForms(e, f, g);
    hide Ch, F1, S3, Maj, F0, Add5;
  }

  lemma ShortT2(a: Word, b: Word, c: Word)
    ensures CodeT2(a, b, c) == T2(a, b, c)
  {
    ShortForms(a, b, c);
    hide Maj, F0, S2, Ch, F1, Add;
  }

  /** The variables as they lie in the array after s rounds without moving them: variable j sits at place j - s. */
  function View(A: seq<Word>, s: nat): Regs
    requires |A| == 8 && s <= 8
  {
    Regs(A[Place(s, 0)], A[Place(s, 1)], A[Place(s, 2)], A[Place(s, 3)], A[Place(s, 4)], A[Place(s, 5)],
      A[Place(s, 6)], A[Place(s, 7)])
  }

  function Place(s: nat, j: nat): (p: nat)
    requires s <= 8 && j < 8
    ensures p < 8
  {
    if j >= s then j - s else j + 8 - s
  }

  /** Two places change; seen from the next place on, every variable has moved by one. */
  lemma PlacesMove(A: seq<Word>, B: seq<Word>, s: nat, d: Word, h: Word)
    requires |A| == 8 && s < 8 && B == A[Place(s, 3) := d][Place(s, 7) := h]
    ensures
      var r := View(A, s);
      View(B, s + 1) == Regs(h, r.a, r.b, r.c, d, r.e, r.f, r.g)
  {
    NextPlaces(s);
    PlacesDiffer(s);
    hide Place;
  }

  lemma NextPlaces(s: nat)
    requires s < 8
    ensures Place(s + 1, 0) == Place(s, 7) && Place(s + 1, 1) == Place(s, 0) && Place(s + 1, 2) == Place(s, 1)
    ensures Place(s + 1, 3) == Place(s, 2) && Place(s + 1, 4) == Place(s, 3) && Place(s + 1, 5) == Place(s, 4)
    ensures Place(s + 1, 6) == Place(s, 5) && Place(s + 1, 7) == Place(s, 6)
  {}

  lemma PlacesDiffer(s: nat)
    requires s < 8
    ensures forall j: nat :: j < 8 ==>
      (Place(s, j) == Place(s, 3) <==> j == 3) && (Place(s, j) == Place(s, 7) <==> j == 7)
  {}

  lemma RotatedRound(A: seq<Word>, B: seq<Word>, s: nat, k: Word, x: Word)
    requires |A| == 8 && s < 8
    requires
      var r := View(A, s);
      var t1 := T1(r.e, r.f, r.g, r.h, k, x);
      B == A[Place(s, 3) := Add(r.d, t1)][Place(s, 7) := Add(t1, T2(r.a, r.b, r.c))]
    ensures View(B, s + 1) == Round(View(A, s), k, x)
  {
    var r := View(A, s);
    var t1, t2 := T1(r.e, r.f, r.g, r.h, k, x), T2(r.a, r.b, r.c);
    var d, h := Add(r.d, t1), Add(t1, t2);
    assert Round(r, k, x) == Regs(h, r.a, r.b, r.c, d, r.e, r.f, r.g);
    hide T1, T2, Add, Round;
    PlacesMove(A, B, s, d, h);
  }

  /** One round on eight places of the array, of which two change; t rounds are done. */
  method P(A: array<Word>, a: nat, b: nat, c: nat, d: nat, e: nat, f: nat, g: nat, h: nat, x: Word, k: Word,
           ghost s: nat, ghost start: Regs, ghost block: seq<bv8>, ghost t: nat)
    requires A.Length == 8 && s < 8
    requires a == Place(s, 0) && b == Place(s, 1) && c == Place(s, 2) && d == Place(s, 3)
    requires e == Place(s, 4) && f == Place(s, 5) && g == Place(s, 6) && h == Place(s, 7)
    requires View(A[..], s) == Rounds(start, block, t) && x == Schedule(block, t) && k == K(t)
    modifies A
    ensures View(A[..], s + 1) == Rounds(start, block, t + 1)
  {
    hide Add, T1, T2, CodeT1, CodeT2, Round, Rounds, Schedule, K;
    ghost var was := A[..];
    ShortT1(A[e], A[f], A[g], A[h], k, x);
    ShortT2(A[a], A[b], A[c]);
    var temp1 := CodeT1(A[e], A[f], A[g], A[h], k, x);
    var temp2 := CodeT2(A[a], A[b], A[c]);
    A[d] := Add(A[d], temp1);
    A[h] := Add(temp1, temp2);
    RotatedRound(was, A[..], s, k, x);
    OneMoreRound(start, block, t);
  }

  lemma OneMoreRound(start: Regs, block: seq<bv8>, t: nat)
    ensures Rounds(start, block, t + 1) == Round(Rounds(start, block, t), K(t), Schedule(block, t))
  {}

  /** Computes one more word of the schedule. */
  method R(W: array<Word>, t: nat, ghost block: seq<bv8>) returns (w: Word)
    requires 16 <= t < 64 == W.Length
    requires Scheduled(W[..], block, t)
    modifies W
    ensures Scheduled(W[..], block, t + 1)
    ensures w == Schedule(block, t)
  {
    hide Expand, GetWord;
    W[t] := Expand(W[t - 2], W[t - 7], W[t - 15], W[t - 16]);
    w := W[t];
  }

  ghost predicate Scheduled(W: seq<Word>, block: seq<bv8>, t: nat) {
    t <= |W| && forall j :: 0 <= j < t ==> W[j] == Schedule(block, j)
  }

  method LoadWords(W: array<Word>, data: seq<bv8>)
    requires W.Length == 64
    modifies W
    ensures Scheduled(W[..], data, 16) && W[16..] == old(W[16..])
  {
    hide GetWord;
    for i := 0 to 16
      invariant W[16..] == old(W[16..])
      invariant forall j :: 0 <= j < i ==> W[j] == GetWord(data, 4 * j)
    {
      W[i] := GetWord(data, 4 * i);
    }
  }

  /** The next message word: loaded already, or computed from the ones before. */
  method NextWord(W: array<Word>, t: nat, ghost block: seq<bv8>) returns (w: Word)
    requires t < 64 == W.Length && Scheduled(W[..], block, if t < 16 then 16 else t)
    modifies W
    ensures Scheduled(W[..], block, if t < 16 then 16 else t + 1) && w == Schedule(block, t)
  {
    if t < 16 {
      w := W[t];
    } else {
      w := R(W, t, block);
    }
  }

  /** t rounds are done, the last s of them without moving the variables; the schedule is ready for the next. */
  ghost predicate Done(A: seq<Word>, W: seq<Word>, s: nat, r: Regs, block: seq<bv8>, t: nat) {
    && |A| == 8 && s <= 8 && View(A, s) == Rounds(r, block, t)
    && Scheduled(W, block, if t < 16 then 16 else t)
  }

  lemma Begin(A: seq<Word>, W: seq<Word>, block: seq<bv8>)
    requires |A| == 8 && Scheduled(W, block, 16)
    ensures Done(A, W, 0, View(A, 0), block, 0)
  {}

  lemma End(A: seq<Word>, W: seq<Word>, r: Regs, block: seq<bv8>)
    requires Done(A, W, 0, r, block, 64)
    ensures View(A, 0) == Rounds(r, block, 64)
  {}

  /** One unrolled round, its message word included. */
  method Turn(A: array<Word>, W: array<Word>, a: nat, b: nat, c: nat, d: nat, e: nat, f: nat, g: nat, h: nat, t: nat,
      ghost s: nat, ghost r: Regs, ghost data: seq<bv8>)
    requires A.Length == 8 && W.Length == 64 && A != W && t < 64 && s < 8
    requires a == Place(s, 0) && b == Place(s, 1) && c == Place(s, 2) && d == Place(s, 3)
    requires e == Place(s, 4) && f == Place(s, 5) && g == Place(s, 6) && h == Place(s, 7)
    requires Done(A[..], W[..], s, r, data, t)
    modifies A, W
    ensures Done(A[..], W[..], s + 1, r, data, t + 1)
  {
    hide Rounds, Schedule, K, View, Scheduled, GetWord, Expand, Place;
    var w := NextWord(W, t, data);
    P(A, a, b, c, d, e, f, g, h, w, K(t), s, r, data, t);
  }

  /** The first four of eight unrolled rounds. */
  method FirstFour(A: array<Word>, W: array<Word>, i: nat, ghost r: Regs, ghost data: seq<bv8>)
    requires A.Length == 8 && W.Length == 64 && A != W && i + 8 <= 64
    requires Done(A[..], W[..], 0, r, data, i)
    modifies A, W
    ensures Done(A[..], W[..], 4, r, data, i + 4)
  {
    hide Done;
    Turn(A, W, 0, 1, 2, 3, 4, 5, 6, 7, i + 0, 0, r, data);
    Turn(A, W, 7, 0, 1, 2, 3, 4, 5, 6, i + 1, 1, r, data);
    Turn(A, W, 6, 7, 0, 1, 2, 3, 4, 5, i + 2, 2, r, data);
    Turn(A, W, 5, 6, 7, 0, 1, 2, 3, 4, i + 3, 3, r, data);
  }

  /** The other four, after which the variables are back in place. */
  method LastFour(A: array<Word>, W: array<Word>, i: nat, ghost r: Regs, ghost data: seq<bv8>)
    requires A.Length == 8 && W.Length == 64 && A != W && i + 8 <= 64
    requires Done(A[..], W[..], 4, r, data, i + 4)
    modifies A, W
    ensures Done(A[..], W[..], 0, r, data, i + 8)
  {
    hide Done;
    Turn(A, W, 4, 5, 6, 7, 0, 1, 2, 3, i + 4, 4, r, data);
    Turn(A, W, 3, 4, 5, 6, 7, 0, 1, 2, i + 5, 5, r, data);
    Turn(A, W, 2, 3, 4, 5, 6, 7, 0, 1, i + 6, 6, r, data);
    Turn(A, W, 1, 2, 3, 4, 5, 6, 7, 0, i + 7, 7, r, data);
    TurnedRound(A[..], W[..], r, data, i + 8);
  }

  lemma TurnedRound(A: seq<Word>, W: seq<Word>, r: Regs, data: seq<bv8>, t: nat)
    requires Done(A, W, 8, r, data, t)
    ensures Done(A, W, 0, r, data, t)
  {
    FullTurn(A);
    hide View, Rounds, Scheduled;
  }

  method EightRounds(A: array<Word>, W: array<Word>, i: nat, ghost r: Regs, ghost data: seq<bv8>)
    requires A.Length == 8 && W.Length == 64 && A != W && i + 8 <= 64 && (i < 16 ==> i + 8 <= 16)
    requires Done(A[..], W[..], 0, r, data, i)
    modifies A, W
    ensures Done(A[..], W[..], 0, r, data, i + 8)
  {
    hide Done;
    FirstFour(A, W, i, r, data);
    LastFour(A, W, i, r, data);
  }

  ghost predicate Aligned(i: nat) {
    i % 8 == 0
  }

  lemma NextAligned(i: nat)
    requires Aligned(i)
    ensures Aligned(i + 8)
    ensures i + 8 < 64 ==> i + 16 <= 64
    ensures i + 8 < 16 ==> i + 16 <= 16
  {}

  /** All rounds, unrolled by eight: the variables stay in place and their names rotate. */
  method UnrolledRounds(A: array<Word>, W: array<Word>, data: seq<bv8>)
    requires A.Length == 8 && W.Length == 64 && A != W && |data| == 64
    modifies A, W
    ensures View(A[..], 0) == Rounds(old(View(A[..], 0)), data, 64)
  {
    ghost var r := View(A[..], 0);
    hide Rounds, Schedule, View, Scheduled, K, Done;
    LoadWords(W, data);
    Begin(A[..], W[..], data);
    NextAligned(0);
    hide Aligned;
    var i := 0;
    while i < 64
      invariant 0 <= i <= 64 && (i < 16 ==> i + 8 <= 16) && (i < 64 ==> i + 8 <= 64) && Aligned(i)
      invariant Done(A[..], W[..], 0, r, data, i)
    {
      EightRounds(A, W, i, r, data);
      NextAligned(i);
      i := i + 8;
    }
    End(A[..], W[..], r, data);
  }

  /** The compression in its default form. */
  method Process(state: array<Word>, data: seq<bv8>)
    requires state.Length == 8 && |data| == 64
    modifies state
    ensures View(state[..], 0) == Compress(old(View(state[..], 0)), data)
  {
    hide View, Rounds, Sum;
    var A := Copy(state);
    var W := new Word[64];
    UnrolledRounds(A, W, data);
    AddInto(state, A);
  }

  method Copy(state: array<Word>) returns (A: array<Word>)
    requires state.Length == 8
    ensures fresh(A) && A.Length == 8 && A[..] == state[..]
  {
    A := new Word[8];
    for i := 0 to 8
      invariant A[..i] == state[..i]
    {
      A[i] := state[i];
    }
  }

  lemma NoRounds(r: Regs, block: seq<bv8>)
    ensures Rounds(r, block, 0) == r
  {}

  /** After eight rounds every variable is back in its own place. */
  lemma FullTurn(A: seq<Word>)
    requires |A| == 8
    ensures View(A, 8) == View(A, 0)
  {}

  method AddInto(state: array<Word>, A: array<Word>)
    requires state.Length == A.Length == 8 && state != A
    modifies state
    ensures View(state[..], 0) == Sum(old(View(state[..], 0)), View(A[..], 0))
  {
    hide Add;
    for i := 0 to 8
      invariant forall j :: 0 <= j < i ==> state[j] == Add(old(state[j]), A[j])
      invariant forall j :: i <= j < 8 ==> state[j] == old(state[j])
    {
      state[i] := Add(state[i], A[i]);
    }
  }

  /** The schedule grows by one word: loaded from the block, then computed. */
  method WordInTurn(W: array<Word>, data: seq<bv8>, i: nat) returns (w: Word)
    requires i < 64 == W.Length && |data| == 64 && Scheduled(W[..], data, i)
    modifies W
    ensures Scheduled(W[..], data, i + 1) && w == Schedule(data, i)
  {
    hide Schedule, GetWord, Scheduled;
    if i < 16 {
      ghost var was := W[..];
      W[i] := GetWord(data, 4 * i);
      w := W[i];
      LoadedWord(was, W[..], data, i);
    } else {
      w := R(W, i, data);
    }
  }

  /** All rounds, one at a time, moving every variable. */
  method PlainRounds(A: array<Word>, W: array<Word>, data: seq<bv8>)
    requires A.Length == 8 && W.Length == 64 && A != W && |data| == 64
    modifies A, W
    ensures View(A[..], 0) == Rounds(old(View(A[..], 0)), data, 64)
  {
    ghost var r := View(A[..], 0);
    hide Rounds, Schedule, K, GetWord, Scheduled, View;
    NoRounds(r, data);
    NothingScheduled(W[..], data);
    for i := 0 to 64
      invariant View(A[..], 0) == Rounds(r, data, i) && Scheduled(W[..], data, i)
    {
      PlainRound(A, W, data, i, r);
    }
  }

  /** One round of the compact form. */
  method PlainRound(A: array<Word>, W: array<Word>, data: seq<bv8>, i: nat, ghost r: Regs)
    requires A.Length == 8 && W.Length == 64 && A != W && |data| == 64 && i < 64
    requires View(A[..], 0) == Rounds(r, data, i) && Scheduled(W[..], data, i)
    modifies A, W
    ensures View(A[..], 0) == Rounds(r, data, i + 1) && Scheduled(W[..], data, i + 1)
  {
    hide Rounds, Schedule, K, GetWord, Scheduled, View;
    var w := WordInTurn(W, data, i);
    P(A, 0, 1, 2, 3, 4, 5, 6, 7, w, K(i), 0, r, data, i);
    Shift(A);
  }

  /** The compression in its compact form. */
  method ProcessSmall(state: array<Word>, data: seq<bv8>)
    requires state.Length == 8 && |data| == 64
    modifies state
    ensures View(state[..], 0) == Compress(old(View(state[..], 0)), data)
  {
    hide View, Rounds, Sum;
    var A := Copy(state);
    var W := new Word[64];
    PlainRounds(A, W, data);
    AddInto(state, A);
  }

  /** Moves every variable on by one place. */
  method Shift(A: array<Word>)
    requires A.Length == 8
    modifies A
    ensures View(A[..], 0) == old(View(A[..], 1))
  {
    var temp1 := A[7];
    A[7] := A[6];
    A[6] := A[5];
    A[5] := A[4];
    A[4] := A[3];
    A[3] := A[2];
    A[2] := A[1];
    A[1] := A[0];
    A[0] := temp1;
  }

  lemma NothingScheduled(W: seq<Word>, block: seq<bv8>)
    ensures Scheduled(W, block, 0)
  {}

  lemma LoadedWord(was: seq<Word>, W: seq<Word>, block: seq<bv8>, i: nat)
    requires i < 16 && i < |was| && Scheduled(was, block, i) && W == was[i := GetWord(block, 4 * i)]
    ensures Scheduled(W, block, i + 1) && W[i] == Schedule(block, i)
  {
    hide GetWord;
  }

  // ---------- messages ----------

  ghost function Start(is224: bool): Regs {
    if is224 then
      Regs(0xC1059ED8, 0x367CD507, 0x3070DD17, 0xF70E5939, 0xFFC00B31, 0x68581511, 0x64F98FA7, 0xBEFA4FA4)
    else
      Regs(0x6A09E667, 0xBB67AE85, 0x3C6EF372, 0xA54FF53A, 0x510E527F, 0x9B05688C, 0x1F83D9AB, 0x5BE0CD19)
  }

  function PutWord(n: Word): seq<bv8> {
    [((n >> 24) & 0xFF) as bv8, ((n >> 16) & 0xFF) as bv8, ((n >> 8) & 0xFF) as bv8, (n & 0xFF) as bv8]
  }

  lemma ByteOfWord(x: bv8, y: bv8, z: bv8, v: bv8)
    ensures PutWord(((x as bv32) << 24) | ((y as bv32) << 16) | ((z as bv32) << 8) | (v as bv32)) == [x, y, z, v]
  {}

  lemma BytesOfWord(n: Word)
    ensures GetWord(PutWord(n), 0) == n
  {}

  /** Reading and writing words are inverse to each other, at any place of the data. */
  lemma WordsAndBytes(b: seq<bv8>, i: nat, n: Word)
    requires i + 4 <= |b|
    ensures PutWord(GetWord(b, i)) == b[i..i + 4] && GetWord(PutWord(n), 0) == n
  {
    hide PutWord, GetWord;
    WordAt(b, i);
    BytesOfWord(n);
    FourBytes(b, i);
  }

  lemma FourBytes(b: seq<bv8>, i: nat)
    requires i + 4 <= |b|
    ensures b[i..i + 4] == [b[i], b[i + 1], b[i + 2], b[i + 3]]
  {}

  lemma WordAt(b: seq<bv8>, i: nat)
    requires i + 4 <= |b|
    ensures PutWord(GetWord(b, i)) == [b[i], b[i + 1], b[i + 2], b[i + 3]]
  {
    ByteOfWord(b[i], b[i + 1], b[i + 2], b[i + 3]);
    hide PutWord;
  }

  ghost function Output(r: Regs, is224: bool): seq<bv8> {
    PutWord(r.a) + PutWord(r.b) + PutWord(r.c) + PutWord(r.d) + PutWord(r.e) + PutWord(r.f) + PutWord(r.g)
    + (if is224 then [] else PutWord(r.h))
  }

  /**
    The digest of a message (sections 5.1.1 and 6.2 of FIPS 180-2): pad it, absorb it block by block, write out the
    state.
  */
  ghost function Digest(m: seq<bv8>, is224: bool): seq<bv8> {
    Output(Absorb(Compress, Start(is224), Padded(m, BigEndian64(8 * |m|))), is224)
  }

  /** So many bytes in bits, as two words hold them. */
  function CountedBits(count: nat): (bits: nat)
    ensures bits < 0x1_0000_0000_0000_0000
  {
    8 * count % 0x1_0000_0000_0000_0000
  }

  /** The same with another number of bytes written behind the padding. */
  ghost function DigestAs(m: seq<bv8>, count: nat, is224: bool): seq<bv8> {
    Output(Absorb(Compress, Start(is224), Padded(m, BigEndian64(CountedBits(count)))), is224)
  }

  /** The message is padded as the standard says exactly when the counter is its length modulo 2^61. */
  lemma RightPadding(m: seq<bv8>, count: nat)
    requires |m| < 0x2000_0000_0000_0000
    ensures Padded(m, BigEndian64(CountedBits(count))) == Padded(m, BigEndian64(8 * |m|))
      <==> count % 0x2000_0000_0000_0000 == |m|
  {
    hide *;
    var c := CountedBits(count);
    BitsOfBytes(count);
    EightBytes(c);
    EightBytes(8 * |m|);
    PaddedEnds(m, BigEndian64(c));
    PaddedEnds(m, BigEndian64(8 * |m|));
    var p, q := Padded(m, BigEndian64(c)), Padded(m, BigEndian64(8 * |m|));
    if p == q { NumberTold(c, 8 * |m|); }
  }

  lemma PaddedEnds(m: seq<bv8>, length: seq<bv8>)
    requires |length| == 8
    ensures var p := Padded(m, length); |p| >= 8 && p[|p| - 8..] == length
  {
    hide Filler;
  }

  lemma BitsOfBytes(count: nat)
    ensures CountedBits(count) == 8 * (count % 0x2000_0000_0000_0000)
  {}

  /** With the right number it is the digest. */
  lemma RightDigest(m: seq<bv8>, count: nat, is224: bool)
    requires |m| < 0x2000_0000_0000_0000 && count % 0x2000_0000_0000_0000 == |m|
    ensures DigestAs(m, count, is224) == Digest(m, is224)
  {
    RightPadding(m, count);
    hide Padded, Absorb, Compress, Start, Output, BigEndian64;
  }

  /** One chunk of 2^32 bytes is counted as none, and padded as if it were empty. */
  lemma LongChunk(m: seq<bv8>)
    requires |m| == 0x1_0000_0000
    ensures |m| % 0x1_0000_0000 == 0
      && Padded(m, BigEndian64(CountedBits(0))) != Padded(m, BigEndian64(8 * |m|))
  {
    RightPadding(m, 0);
    hide Padded, BigEndian64;
  }

  /** The state has absorbed the whole blocks of m; the buffer begins with the rest. */
  ghost predicate Holds(st: seq<Word>, buf: seq<bv8>, is224: bool, m: seq<bv8>) {
    && |st| == 8 && |buf| == 64
    && View(st, 0) == Absorb(Compress, Start(is224), m)
    && buf[..|Tail(m)|] == Tail(m)
  }

  lemma HoldsNothing(st: seq<Word>, buf: seq<bv8>, is224: bool)
    requires |st| == 8 && |buf| == 64 && View(st, 0) == Start(is224)
    ensures Holds(st, buf, is224, [])
  {
    AbsorbOne(Compress, Start(is224), []);
    hide Absorb, Start, View, Compress;
  }

  lemma HoldsTail(st: seq<Word>, buf: seq<bv8>, is224: bool, m: seq<bv8>, total0: nat)
    requires Holds(st, buf, is224, m) && total0 == |m| % 0x1_0000_0000
    ensures |Tail(m)| == total0 % 64 && buf[..total0 % 64] == Tail(m)
  {
    TailLength(m);
    LastSixBits(|m|);
    hide Tail, Absorb, View, Compress, Start;
  }

  lemma LastSixBits(n: nat)
    ensures n % 0x1_0000_0000 % 64 == n % 64
  {}

  lemma HoldsBlock(st: seq<Word>, next: seq<Word>, buf: seq<bv8>, after: seq<bv8>, is224: bool, m: seq<bv8>,
          x: seq<bv8>)
    requires Holds(st, buf, is224, m) && |Tail(m)| + |x| == 64 && |next| == 8 && |after| == 64
    requires View(next, 0) == Compress(View(st, 0), Tail(m) + x)
    ensures Holds(next, after, is224, m + x) && Tail(m + x) == []
  {
    hide Tail, Absorb, View, Compress, Start;
    AbsorbMore(Compress, Start(is224), m, x);
  }

  lemma HoldsMore(st: seq<Word>, buf: seq<bv8>, after: seq<bv8>, is224: bool, m: seq<bv8>, x: seq<bv8>)
    requires Holds(st, buf, is224, m) && |Tail(m)| + |x| < 64 && |after| == 64
    requires after[..|Tail(m)| + |x|] == Tail(m) + x
    ensures Holds(st, after, is224, m + x)
  {
    hide Tail, Absorb, View, Compress, Start;
    AbsorbMore(Compress, Start(is224), m, x);
  }

  class Context {
    var total0: nat
    var total1: nat
    const state: array<Word>
    const buffer: array<bv8>
    var is224: bool
    ghost var message: seq<bv8>

    ghost predicate Shaped()
      reads this
    {
      state.Length == 8 && buffer.Length == 64
    }

    /** The number of bytes, as the two words count it. */
    ghost function Counter(): nat
      reads this
    {
      total1 * 0x1_0000_0000 + total0
    }

    /** State and buffer hold the message so far, and the low word of the counter that of its length. */
    ghost predicate Valid()
      reads this, state, buffer
    {
      && Shaped() && Holds(state[..], buffer[..], is224, message)
      && total0 == |message| % 0x1_0000_0000 && total1 < 0x1_0000_0000
    }

    constructor ()
      ensures Shaped() && fresh(state) && fresh(buffer)
    {
      state := new Word[8];
      buffer := new bv8[64];
    }

    method Starts(use224: bool)
      requires Shaped()
      modifies this, state
      ensures Valid() && message == [] && Counter() == 0 && is224 == use224
    {
      hide Holds, View, Start;
      total0, total1 := 0, 0;
      LoadStart(use224);
      is224 := use224;
      message := [];
      HoldsNothing(state[..], buffer[..], use224);
    }

    method LoadStart(use224: bool)
      requires Shaped()
      modifies state
      ensures View(state[..], 0) == Start(use224)
    {
      if !use224 {
        state[0] := 0x6A09E667;
        state[1] := 0xBB67AE85;
        state[2] := 0x3C6EF372;
        state[3] := 0xA54FF53A;
        state[4] := 0x510E527F;
        state[5] := 0x9B05688C;
        state[6] := 0x1F83D9AB;
        state[7] := 0x5BE0CD19;
      } else {
        state[0] := 0xC1059ED8;
        state[1] := 0x367CD507;
        state[2] := 0x3070DD17;
        state[3] := 0xF70E5939;
        state[4] := 0xFFC00B31;
        state[5] := 0x68581511;
        state[6] := 0x64F98FA7;
        state[7] := 0xBEFA4FA4;
      }
    }

    /**
      The counter is two 32-bit words; a carry shows in a sum below what was added. Of a long chunk it sees the low
      word.
    */
    method Count(ilen: nat)
      requires total0 < 0x1_0000_0000 && total1 < 0x1_0000_0000
      modifies this`total0, this`total1
      ensures total0 == (old(total0) + ilen) % 0x1_0000_0000 && total1 < 0x1_0000_0000
      ensures Counter() == (old(Counter()) + ilen % 0x1_0000_0000) % 0x1_0000_0000_0000_0000
    {
      var low := ilen % 0x1_0000_0000;
      Carry(total0, total1, low);
      TwoParts(total0, ilen);
      total0 := (total0 + low) % 0x1_0000_0000;
      if total0 < low {
        total1 := (total1 + 1) % 0x1_0000_0000;
      }
    }

    /** Copies bytes into the buffer. */
    method Fill(at: nat, data: seq<bv8>)
      requires Shaped() && at + |data| <= 64
      modifies buffer
      ensures buffer[..] == old(buffer[..at]) + data + old(buffer[at + |data|..])
    {
      forall i | 0 <= i < |data| {
        buffer[at + i] := data[i];
      }
    }

    /** Any split of a message leads to the same state: only the bytes so far count. The counter may lag behind them. */
    method Update(input: seq<bv8>)
      requires Valid()
      modifies this, state, buffer
      ensures Valid() && message == old(message) + input && is224 == old(is224)
      ensures Counter() == (old(Counter()) + |input| % 0x1_0000_0000) % 0x1_0000_0000_0000_0000
      ensures old(Counter() == |message|) && |message| < 0x1_0000_0000_0000_0000 ==>
        (Counter() == |message| <==> |input| < 0x1_0000_0000)
    {
      hide Holds, View, Compress, Tail;
      CounterFollows(Counter(), |input|);
      LowWords(|message|, |input|);
      if |input| == 0 {
        assert message + input == message;
        return;
      }
      HoldsTail(state[..], buffer[..], is224, message, total0);
      var left := total0 % 64;
      Count(|input|);
      var n := 0;
      assert message + input[..n] == message;
      if left > 0 && |input| >= 64 - left {
        n := Complete(left, input);
        left := 0;
      }
      n := Blocks(left, input, n);
      assert left > 0 ==> n == 0;
      if n < |input| {
        Keep(left, input, n);
      }
      message := old(message) + input;
      assert input[..|input|] == input;
    }

    /** Fills the waiting block up and processes it. */
    method Complete(left: nat, input: seq<bv8>) returns (n: nat)
      requires Shaped() && Holds(state[..], buffer[..], is224, message)
      requires 0 < left == |Tail(message)| && buffer[..left] == Tail(message) && |input| >= 64 - left
      modifies state, buffer
      ensures n == 64 - left
      ensures Holds(state[..], buffer[..], is224, message + input[..n]) && Tail(message + input[..n]) == []
    {
      hide Holds, View, Compress, Tail;
      n := 64 - left;
      ghost var st, buf := state[..], buffer[..];
      Fill(left, input[..n]);
      assert buffer[..] == Tail(message) + input[..n];
      Process(state, buffer[..]);
      HoldsBlock(st, state[..], buf, buffer[..], is224, message, input[..n]);
    }

    /** Processes whole blocks straight from the input. */
    method Blocks(left: nat, input: seq<bv8>, start: nat) returns (n: nat)
      requires Shaped() && start <= |input|
      requires Holds(state[..], buffer[..], is224, message + input[..start])
      requires left == |Tail(message + input[..start])| && (left == 0 || |input| - start < 64 - left)
      modifies state
      ensures start <= n <= |input| < n + 64 - left && (left > 0 ==> n == start)
      ensures Holds(state[..], buffer[..], is224, message + input[..n]) && left == |Tail(message + input[..n])|
    {
      hide Holds, View, Compress, Tail;
      n := start;
      while |input| - n >= 64
        invariant start <= n <= |input| && (left > 0 ==> n == start) && (left > 0 ==> |input| - n < 64) && Shaped()
        invariant Holds(state[..], buffer[..], is224, message + input[..n]) && left == |Tail(message + input[..n])|
      {
        NextBlock(input, n);
        n := n + 64;
      }
    }

    /** One whole block straight from the input. */
    method NextBlock(input: seq<bv8>, n: nat)
      requires Shaped() && n + 64 <= |input|
      requires Holds(state[..], buffer[..], is224, message + input[..n]) && Tail(message + input[..n]) == []
      modifies state
      ensures Holds(state[..], buffer[..], is224, message + input[..n + 64]) && Tail(message + input[..n + 64]) == []
    {
      hide Holds, View, Compress, Tail;
      ghost var st := state[..];
      var data := input[n..n + 64];
      Process(state, data);
      assert Tail(message + input[..n]) + data == data;
      assert message + input[..n] + data == message + input[..n + 64];
      HoldsBlock(st, state[..], buffer[..], buffer[..], is224, message + input[..n], data);
    }

    /** Keeps what does not fill a block. */
    method Keep(left: nat, input: seq<bv8>, n: nat)
      requires Shaped() && n <= |input| && left + (|input| - n) < 64
      requires Holds(state[..], buffer[..], is224, message + input[..n]) && left == |Tail(message + input[..n])|
      requires buffer[..left] == Tail(message + input[..n])
      modifies buffer
      ensures Holds(state[..], buffer[..], is224, message + input)
    {
      hide Holds, View, Compress, Tail;
      ghost var buf := buffer[..];
      Fill(left, input[n..]);
      assert message + input[..n] + input[n..] == message + input;
      assert buffer[..left + (|input| - n)] == Tail(message + input[..n]) + input[n..];
      HoldsMore(state[..], buf, buffer[..], is224, message + input[..n], input[n..]);
    }

    /**
      Pads the message with the counter and writes out the state: with the right counter, the digest of all that was
      passed in.
    */
    method Finish() returns (output: seq<bv8>)
      requires Valid()
      modifies state, buffer
      ensures output == DigestAs(message, Counter(), is224)
      ensures Counter() == |message| < 0x2000_0000_0000_0000 ==> output == Digest(message, is224)
    {
      hide Holds, View, Compress, Absorb, Padded, Start, Output, BigEndian64, CountedBits;
      if Counter() == |message| < 0x2000_0000_0000_0000 { RightDigest(message, Counter(), is224); }
      Pad(BigEndian64(CountedBits(Counter())));
      output := WriteOut();
    }

    /** The padding, in one more block or two. */
    method Pad(ghost length: seq<bv8>)
      requires Valid() && length == BigEndian64(CountedBits(Counter()))
      modifies state, buffer
      ensures View(state[..], 0) == Absorb(Compress, Start(is224), Padded(message, length))
    {
      hide Holds, View, Compress, Tail, Absorb, Padded, Start, BigEndian64, CountedBits;
      EightBytes(CountedBits(Counter()));
      HoldsTail(state[..], buffer[..], is224, message, total0);
      HoldsState(state[..], buffer[..], is224, message);
      PaddingBlocks(Compress, Start(is224), message, length);
      MakeRoom(total0 % 64, Tail(message), length, Absorb(Compress, Start(is224), Padded(message, length)));
      AppendLength(length);
      Process(state, buffer[..]);
    }

    /** The filler, with a block of its own when the length would not fit behind it. */
    method MakeRoom(left: nat, ghost tail: seq<bv8>, ghost length: seq<bv8>, ghost total: Regs)
      requires Shaped() && left < 64 && |length| == 8 && buffer[..left] == tail
      requires
        var used := left + 1;
        var open := tail + [0x80 as bv8];
        var mid := View(state[..], 0);
        total == if used <= 56 then Compress(mid, open + Zeros(56 - used) + length)
          else Compress(Compress(mid, open + Zeros(64 - used)), Zeros(56) + length)
      modifies state, buffer
      ensures Compress(View(state[..], 0), buffer[..56] + length) == total
    {
      hide View, Compress;
      ghost var open := tail + [0x80 as bv8];
      var used := left;
      Fill(used, [0x80]);
      used := used + 1;
      assert buffer[..used] == open;
      if used <= 56 {
        Fill(used, Zeros(56 - used));
        assert buffer[..56] == open + Zeros(56 - used);
      } else {
        Fill(used, Zeros(64 - used));
        assert buffer[..] == open + Zeros(64 - used);
        Process(state, buffer[..]);
        Fill(0, Zeros(56));
        assert buffer[..56] == Zeros(56);
      }
    }

    /**
      The length in bits goes into the last eight bytes. The two parts of the high word share no bit, so their or is
      their sum.
    */
    method AppendLength(ghost length: seq<bv8>)
      requires Shaped() && total0 < 0x1_0000_0000 && total1 < 0x1_0000_0000
      requires length == BigEndian64(CountedBits(Counter()))
      modifies buffer
      ensures buffer[..] == old(buffer[..56]) + length
    {
      CounterIs();
      hide *;
      var high, low := HighBits(total0, total1), LowBits(total0);
      CountBytes(total0, total1);
      AppendWords(BigEndian(high), BigEndian(low));
    }

    lemma CounterIs()
      ensures Counter() == total1 * 0x1_0000_0000 + total0
    {}

    method AppendWords(x: seq<bv8>, y: seq<bv8>)
      requires Shaped() && |x| == |y| == 4
      modifies buffer
      ensures buffer[..] == old(buffer[..56]) + (x + y)
    {
      ghost var b0 := buffer[..];
      Fill(56, x);
      ghost var b1 := buffer[..];
      Fill(60, y);
      AtTheEnd(b0, b1, buffer[..], x, y);
    }

    lemma CountBytes(total0: nat, total1: nat)
      requires total0 < 0x1_0000_0000 && total1 < 0x1_0000_0000
      ensures
        var high, low := HighBits(total0, total1), LowBits(total0);
        && |BigEndian(high)| == 4 && |BigEndian(low)| == 4
        && BigEndian(high) + BigEndian(low) ==
          BigEndian64(CountedBits(total1 * 0x1_0000_0000 + total0))
    {
      var high, low := HighBits(total0, total1), LowBits(total0);
      BitCount(total0, total1);
      TwoHalves(high, low);
      FourBytes(high);
      FourBytes(low);
      hide *;
    }

    lemma FourBytes(v: int)
      ensures |BigEndian(v)| == 4
    {}

    lemma AtTheEnd(b0: seq<bv8>, b1: seq<bv8>, b2: seq<bv8>, x: seq<bv8>, y: seq<bv8>)
      requires |b0| == |b1| == 64 && |x| == |y| == 4
      requires b1 == b0[..56] + x + b0[60..] && b2 == b1[..60] + y + b1[64..]
      ensures b2 == b0[..56] + (x + y)
    {}

    method WriteOut() returns (output: seq<bv8>)
      requires Shaped()
      ensures output == Output(View(state[..], 0), is224)
    {
      hide PutWord;
      output := PutWord(state[0]) + PutWord(state[1]) + PutWord(state[2]) + PutWord(state[3])
        + PutWord(state[4]) + PutWord(state[5]) + PutWord(state[6]);
      if !is224 {
        output := output + PutWord(state[7]);
      }
    }
  }

  lemma HoldsState(st: seq<Word>, buf: seq<bv8>, is224: bool, m: seq<bv8>)
    requires Holds(st, buf, is224, m)
    ensures |st| == 8 && View(st, 0) == Absorb(Compress, Start(is224), m)
  {}

  /** The upper word of the number of bits. */
  function HighBits(total0: nat, total1: nat): nat {
    total0 / 0x2000_0000 + (total1 * 8) % 0x1_0000_0000
  }

  /** The lower word. */
  function LowBits(total0: nat): nat {
    (total0 * 8) % 0x1_0000_0000
  }

  lemma BitCount(total0: nat, total1: nat)
    requires total0 < 0x1_0000_0000 && total1 < 0x1_0000_0000
    ensures
      var high, low := HighBits(total0, total1), LowBits(total0);
      high < 0x1_0000_0000 && high * 0x1_0000_0000 + low ==
        8 * (total1 * 0x1_0000_0000 + total0) % 0x1_0000_0000_0000_0000
  {
    EightTimes(total0);
    EightTimes(total1);
    var k, l, i, j := total1 / 0x2000_0000, total1 % 0x2000_0000, total0 / 0x2000_0000, total0 % 0x2000_0000;
    LowPartOf(8 * (total1 * 0x1_0000_0000 + total0), k, (i + 8 * l) * 0x1_0000_0000 + 8 * j);
  }

  lemma EightTimes(x: nat)
    requires x < 0x1_0000_0000
    ensures x * 8 == (x / 0x2000_0000) * 0x1_0000_0000 + 8 * (x % 0x2000_0000)
    ensures (x * 8) % 0x1_0000_0000 == 8 * (x % 0x2000_0000) && x / 0x2000_0000 < 8
  {}

  lemma LowPartOf(v: nat, k: nat, low: nat)
    requires v == k * 0x1_0000_0000_0000_0000 + low && low < 0x1_0000_0000_0000_0000
    ensures v % 0x1_0000_0000_0000_0000 == low
  {}

  /** A sum of low words is below what was added exactly when it has a carry. */
  lemma Carry(total0: nat, total1: nat, low: nat)
    requires total0 < 0x1_0000_0000 && total1 < 0x1_0000_0000 && low < 0x1_0000_0000
    ensures
      var sum := (total0 + low) % 0x1_0000_0000;
      var top := if sum < low then (total1 + 1) % 0x1_0000_0000 else total1;
      top * 0x1_0000_0000 + sum == (total1 * 0x1_0000_0000 + total0 + low) % 0x1_0000_0000_0000_0000
  {
    if total0 + low < 0x1_0000_0000 {
      assert (total0 + low) % 0x1_0000_0000 == total0 + low;
    } else {
      assert (total0 + low) % 0x1_0000_0000 == total0 + low - 0x1_0000_0000;
    }
  }

  lemma TwoParts(x: nat, n: nat)
    ensures (x + n % 0x1_0000_0000) % 0x1_0000_0000 == (x + n) % 0x1_0000_0000
  {}

  lemma CounterFollows(c: nat, n: nat)
    ensures c + n < 0x1_0000_0000_0000_0000 ==>
      ((c + n % 0x1_0000_0000) % 0x1_0000_0000_0000_0000 == c + n <==> n < 0x1_0000_0000)
  {}

  lemma LowWords(m: nat, n: nat)
    ensures (m % 0x1_0000_0000 + n) % 0x1_0000_0000 == (m + n) % 0x1_0000_0000
  {}

  /** The one-shot form. */
  method Hash(input: seq<bv8>, is224: bool) returns (output: seq<bv8>)
    ensures output == DigestAs(input, |input| % 0x1_0000_0000, is224)
    ensures |input| < 0x1_0000_0000 ==> output == Digest(input, is224)
  {
    hide Digest, DigestAs, Holds;
    var ctx := new Context();
    ctx.Starts(is224);
    ctx.Update(input);
    assert [] + input == input;
    output := ctx.Finish();
  }
}
