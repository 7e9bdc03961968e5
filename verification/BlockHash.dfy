/** Hashing in 64-byte blocks: what is absorbed, what is still waiting, and how a message is padded. */
module BlockHash {
  import opened Arithmetic
  import opened ByteValues

  const BLOCK: nat := 64

  /** The chaining value after all whole blocks of m, for a compression function f. */
  ghost function Absorb<S>(f: (S, seq<bv8>) -> S, st: S, m: seq<bv8>): S {
    if |m| < BLOCK then st else Absorb(f, f(st, m[..BLOCK]), m[BLOCK..])
  }

  /** The bytes behind the last whole block. */
  ghost function Tail(m: seq<bv8>): (r: seq<bv8>)
    ensures |r| < BLOCK
  {
    m[|m| - |m| % BLOCK..]
  }

  lemma TailLength(m: seq<bv8>)
    ensures |Tail(m)| == |m| % BLOCK
  {}

  lemma {:induction false} AbsorbConcat<S>(f: (S, seq<bv8>) -> S, st: S, a: seq<bv8>, b: seq<bv8>)
    requires |a| % BLOCK == 0
    ensures Absorb(f, st, a + b) == Absorb(f, Absorb(f, st, a), b)
  {
    if a == [] {
      assert a + b == b;
    } else {
      assert (a + b)[..BLOCK] == a[..BLOCK] && (a + b)[BLOCK..] == a[BLOCK..] + b;
      AbsorbConcat(f, f(st, a[..BLOCK]), a[BLOCK..], b);
    }
  }

  lemma AbsorbOne<S>(f: (S, seq<bv8>) -> S, st: S, b: seq<bv8>)
    ensures |b| < BLOCK ==> Absorb(f, st, b) == st
    ensures |b| == BLOCK ==> Absorb(f, st, b) == f(st, b)
  {
    if |b| == BLOCK {
      assert b[..BLOCK] == b && b[BLOCK..] == [];
    }
  }

  ghost function Whole(m: seq<bv8>): (r: seq<bv8>)
    ensures |r| % BLOCK == 0 && m == r + Tail(m)
  {
    m[..|m| - |m| % BLOCK]
  }

  lemma TailBehind(a: seq<bv8>, b: seq<bv8>)
    requires |a| % BLOCK == 0 && |b| <= BLOCK
    ensures Tail(a + b) == if |b| < BLOCK then b else []
  {}

  /** Bytes that complete the waiting ones to a block make one more step; fewer only join them. */
  lemma AbsorbMore<S>(f: (S, seq<bv8>) -> S, st: S, m: seq<bv8>, x: seq<bv8>)
    requires |Tail(m)| + |x| <= BLOCK
    ensures Absorb(f, st, m + x) ==
      if |Tail(m)| + |x| < BLOCK then Absorb(f, st, m) else f(Absorb(f, st, m), Tail(m) + x)
    ensures Tail(m + x) == if |Tail(m)| + |x| < BLOCK then Tail(m) + x else []
  {
    var a, b := Whole(m), Tail(m);
    hide Absorb, Tail, Whole;
    assert m + x == a + (b + x);
    AbsorbConcat(f, st, a, b + x);
    AbsorbConcat(f, st, a, b);
    TailBehind(a, b + x);
    var mid := Absorb(f, st, a);
    AbsorbOne(f, mid, b);
    AbsorbOne(f, mid, b + x);
  }

  // ---------- padding ----------

  function Zeros(n: nat): (r: seq<bv8>)
    ensures |r| == n && forall i :: 0 <= i < n ==> r[i] == 0
  {
    seq(n, _ => 0 as bv8)
  }

  function ByteOf(v: int): bv8 {
    (v % 256) as bv8
  }

  /** A 32-bit word as four bytes, most significant first. */
  function BigEndian(v: int): seq<bv8> {
    [ByteOf(v / 0x100_0000), ByteOf(v / 0x1_0000), ByteOf(v / 0x100), ByteOf(v)]
  }

  /** A 32-bit word as four bytes, least significant first. */
  function LittleEndian(v: int): seq<bv8> {
    [ByteOf(v), ByteOf(v / 0x100), ByteOf(v / 0x1_0000), ByteOf(v / 0x100_0000)]
  }

  /** A 64-bit number as eight bytes, most significant first. */
  function BigEndian64(v: int): seq<bv8> {
    [ByteOf(v / 0x100_0000_0000_0000), ByteOf(v / 0x1_0000_0000_0000),
     ByteOf(v / 0x100_0000_0000), ByteOf(v / 0x1_0000_0000),
     ByteOf(v / 0x100_0000), ByteOf(v / 0x1_0000), ByteOf(v / 0x100), ByteOf(v)]
  }

  lemma EightBytes(v: int)
    ensures |BigEndian64(v)| == 8
  {}

  /** A 64-bit number as eight bytes, least significant first. */
  function LittleEndian64(v: int): seq<bv8> {
    [ByteOf(v), ByteOf(v / 0x100), ByteOf(v / 0x1_0000), ByteOf(v / 0x100_0000),
     ByteOf(v / 0x1_0000_0000), ByteOf(v / 0x100_0000_0000),
     ByteOf(v / 0x1_0000_0000_0000), ByteOf(v / 0x100_0000_0000_0000)]
  }

  /** Writing the halves of a number writes the number. */
  lemma TwoHalves(high: int, low: int)
    requires 0 <= high < 0x1_0000_0000 && 0 <= low < 0x1_0000_0000
    ensures BigEndian(high) + BigEndian(low) == BigEndian64(high * 0x1_0000_0000 + low)
    ensures LittleEndian(low) + LittleEndian(high) == LittleEndian64(high * 0x1_0000_0000 + low)
  {
    var v := high * 0x1_0000_0000 + low;
    HighBytes(high, low);
    LowBytes(high, low);
    SameByte(v / 0x100_0000, low / 0x100_0000);
    SameByte(v / 0x1_0000, low / 0x1_0000);
    SameByte(v / 0x100, low / 0x100);
    SameByte(v, low);
    BigHalves(high, low, v);
    LittleHalves(high, low, v);
    hide *;
  }

  /** The bytes of v are those of its halves. */
  ghost predicate HalvesOf(high: int, low: int, v: int) {
    && v / 0x100_0000_0000_0000 == high / 0x100_0000 && v / 0x1_0000_0000_0000 == high / 0x1_0000
    && v / 0x100_0000_0000 == high / 0x100 && v / 0x1_0000_0000 == high
    && ByteOf(v / 0x100_0000) == ByteOf(low / 0x100_0000) && ByteOf(v / 0x1_0000) == ByteOf(low / 0x1_0000)
    && ByteOf(v / 0x100) == ByteOf(low / 0x100) && ByteOf(v) == ByteOf(low)
  }

  lemma BigHalves(high: int, low: int, v: int)
    requires HalvesOf(high, low, v)
    ensures BigEndian(high) + BigEndian(low) == BigEndian64(v)
  {
    hide ByteOf;
  }

  lemma LittleHalves(high: int, low: int, v: int)
    requires HalvesOf(high, low, v)
    ensures LittleEndian(low) + LittleEndian(high) == LittleEndian64(v)
  {
    hide ByteOf;
  }

  lemma SameByte(x: int, y: int)
    requires x % 256 == y % 256
    ensures ByteOf(x) == ByteOf(y)
  {}

  lemma HighBytes(high: int, low: int)
    requires 0 <= high && 0 <= low < 0x1_0000_0000
    ensures
      var v := high * 0x1_0000_0000 + low;
      && v / 0x100_0000_0000_0000 == high / 0x100_0000 && v / 0x1_0000_0000_0000 == high / 0x1_0000
      && v / 0x100_0000_0000 == high / 0x100 && v / 0x1_0000_0000 == high
  {}

  lemma LowBytes(high: int, low: int)
    requires 0 <= high && 0 <= low < 0x1_0000_0000
    ensures
      var v := high * 0x1_0000_0000 + low;
      && (v / 0x100_0000) % 256 == (low / 0x100_0000) % 256 && (v / 0x1_0000) % 256 == (low / 0x1_0000) % 256
      && (v / 0x100) % 256 == (low / 0x100) % 256 && v % 256 == low % 256
  {
    LowByte(high * 0x1_0000_0000 + low, low, high, 0x100_0000, 1);
    LowByte(high * 0x1_0000_0000 + low, low, high, 0x1_0000, 0x100);
    LowByte(high * 0x1_0000_0000 + low, low, high, 0x100, 0x1_0000);
    LowByte(high * 0x1_0000_0000 + low, low, high, 1, 0x100_0000);
  }

  /** Adding a multiple of 256 d does not change the byte at d. */
  lemma LowByte(v: int, low: int, high: int, d: int, e: int)
    requires d > 0 && e > 0 && d * e == 0x100_0000 && v == high * 0x1_0000_0000 + low
    ensures (v / d) % 256 == (low / d) % 256
  {
    var q, r := low / d, low % d;
    assert low == q * d + r;
    var a := high * e;
    assert (high * e) * d == high * (d * e) by { MulAssoc(high, e, d); }
    assert (256 * a + q) * d == 256 * (a * d) + q * d by { Distribute(256 * a, q, d); MulAssoc(256, a, d); }
    DivModUnique(v, d, 256 * a + q, r);
    var s := q / 256;
    DivModUnique(256 * a + q, 256, a + s, q % 256);
  }

  lemma ByteTells(x: int, y: int)
    requires ByteOf(x) == ByteOf(y)
    ensures x % 256 == y % 256
  {
    ByteTellsNumber(x % 256, y % 256);
  }

  /** A digit and what lies above it. */
  lemma DigitAbove(v: nat, d: int)
    requires d > 0
    ensures v / d == 256 * (v / (256 * d)) + (v / d) % 256
  {
    var q, r := v / d, v % d;
    var a, b := q / 256, q % 256;
    assert v == q * d + r && q == a * 256 + b;
    Distribute(d, a * 256, b);
    MulAssoc(a, 256, d);
    MulMono(d, b, 255);
    MulMono(d, 0, b);
    DivModUnique(v, 256 * d, a, b * d + r);
  }

  /** Eight bytes tell a 64-bit number. */
  lemma NumberTold(v: nat, w: nat)
    requires v < 0x1_0000_0000_0000_0000 && w < 0x1_0000_0000_0000_0000 && BigEndian64(v) == BigEndian64(w)
    ensures v == w
  {
    var s, t := BigEndian64(v), BigEndian64(w);
    hide ByteOf;
    assert s[0] == t[0] && s[1] == t[1] && s[2] == t[2] && s[3] == t[3] && s[4] == t[4] && s[5] == t[5] && s[6] == t[6]
      && s[7] == t[7];
    hide BigEndian64;
    SameAbove(v, w, 0x100_0000_0000_0000);
    SameAbove(v, w, 0x1_0000_0000_0000);
    SameAbove(v, w, 0x100_0000_0000);
    SameAbove(v, w, 0x1_0000_0000);
    SameAbove(v, w, 0x100_0000);
    SameAbove(v, w, 0x1_0000);
    SameAbove(v, w, 0x100);
    SameAbove(v, w, 1);
  }

  lemma SameAbove(v: nat, w: nat, d: int)
    requires d > 0 && v / (256 * d) == w / (256 * d) && ByteOf(v / d) == ByteOf(w / d)
    ensures v / d == w / d
  {
    DigitAbove(v, d);
    DigitAbove(w, d);
    ByteTells(v / d, w / d);
  }

  /** A one bit, then zeros up to eight bytes short of a block. */
  function Filler(n: nat): (r: seq<bv8>)
    ensures |r| == 1 + ZeroCount(n)
  {
    [0x80 as bv8] + Zeros(ZeroCount(n))
  }

  /** How many zeros make a message with its one bit and its length whole blocks. */
  function ZeroCount(n: nat): (k: nat)
    ensures k < BLOCK && (n + 1 + k + 8) % BLOCK == 0
  {
    (BLOCK + 55 - n % BLOCK) % BLOCK
  }

  /** The message with its filler and the eight bytes of its length in bits. */
  ghost function Padded(m: seq<bv8>, length: seq<bv8>): (r: seq<bv8>)
    requires |length| == 8
    ensures |r| % BLOCK == 0 && m <= r
  {
    m + (Filler(|m|) + length)
  }

  /** The last block or the last two, as they are made up in the buffer. */
  lemma PaddingBlocks<S>(f: (S, seq<bv8>) -> S, st: S, m: seq<bv8>, length: seq<bv8>)
    requires |length| == 8
    ensures
      var used := |Tail(m)| + 1;
      var open := Tail(m) + [0x80 as bv8];
      var mid := Absorb(f, st, m);
      Absorb(f, st, Padded(m, length)) ==
        if used <= 56 then f(mid, open + Zeros(56 - used) + length)
        else f(f(mid, open + Zeros(64 - used)), Zeros(56) + length)
  {
    FillerLength(m);
    var filler := Filler(|m|);
    assert Padded(m, length) == m + (filler + length);
    hide Absorb, Tail, Filler, Padded;
    if |Tail(m)| < 56 {
      OneBlock(f, st, m, filler, length);
    } else {
      TwoBlocks(f, st, m, filler, length);
    }
  }

  lemma FillerLength(m: seq<bv8>)
    ensures Filler(|m|) == [0x80 as bv8] + Zeros(if |Tail(m)| < 56 then 55 - |Tail(m)| else 119 - |Tail(m)|)
  {}

  lemma OneBlock<S>(f: (S, seq<bv8>) -> S, st: S, m: seq<bv8>, filler: seq<bv8>, length: seq<bv8>)
    requires |length| == 8 && |Tail(m)| < 56
    requires filler == [0x80 as bv8] + Zeros(55 - |Tail(m)|)
    ensures Absorb(f, st, m + (filler + length)) ==
      f(Absorb(f, st, m), Tail(m) + [0x80 as bv8] + Zeros(55 - |Tail(m)|) + length)
  {
    hide Absorb, Tail;
    AbsorbMore(f, st, m, filler + length);
    assert Tail(m) + (filler + length) == Tail(m) + [0x80 as bv8] + Zeros(55 - |Tail(m)|) + length;
  }

  lemma TwoBlocks<S>(f: (S, seq<bv8>) -> S, st: S, m: seq<bv8>, filler: seq<bv8>, length: seq<bv8>)
    requires |length| == 8 && |Tail(m)| >= 56
    requires filler == [0x80 as bv8] + Zeros(119 - |Tail(m)|)
    ensures Absorb(f, st, m + (filler + length)) ==
      f(f(Absorb(f, st, m), Tail(m) + [0x80 as bv8] + Zeros(63 - |Tail(m)|)), Zeros(56) + length)
  {
    hide Absorb, Tail;
    var r := |Tail(m)|;
    var first, second := [0x80 as bv8] + Zeros(63 - r), Zeros(56) + length;
    assert m + (filler + length) == (m + first) + second;
    AbsorbMore(f, st, m, first);
    AbsorbMore(f, st, m + first, second);
    assert Tail(m) + first == Tail(m) + [0x80 as bv8] + Zeros(63 - r);
    assert Tail(m + first) + second == second;
  }
}
