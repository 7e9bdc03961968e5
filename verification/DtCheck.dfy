/** The full check of a blob: header fields, the end of the reserve map, and the walk over its tokens. */
module DtCheck {
  import opened DtFormat
  import opened DtTree
  import opened DtEvents
  import opened DtBlob
  import opened DtRead
  import opened DtWriter

  const ERR_BADMAGIC: int := 9
  const ERR_BADVERSION: int := 10
  const ERR_BADOFFSET: int := 4

  const MAGIC: U32 := 0xd00d_feed
  const SW_MAGIC: U32 := 0xffff_ffff - MAGIC
  const FIRST_SUPPORTED: U32 := 2
  const LAST_SUPPORTED: U32 := 17

  /** The header's fields that the check looks at. */
  datatype Header = Header(magic: U32, totalsize: U32, offStruct: U32, offStrings: U32, offMemRsvmap: U32, version: U32,
    lastComp: U32, sizeStrings: U32, sizeStruct: U32)

  // ---------- header ----------

  /** The header's fields in order; later versions have a few more. */
  ghost function HeaderFields(version: U32): seq<string> {
    ["magic", "totalsize", "off_dt_struct", "off_dt_strings", "off_mem_rsvmap", "version", "last_comp_version"]
    + (if version >= 2 then ["boot_cpuid_phys"] else [])
    + (if version >= 3 then ["size_dt_strings"] else [])
    + (if version >= 17 then ["size_dt_struct"] else [])
  }

  /** A header has a word for each of its fields. */
  function HeaderSize(version: U32): (size: U32)
    ensures 28 <= size <= 40
    ensures size == 4 * |HeaderFields(version)|
  {
    if version <= 1 then 28 else if version <= 2 then 32 else if version <= 16 then 36 else 40
  }

  predicate CheckOff(hdrsize: U32, totalsize: U32, off: U32) {
    off >= hdrsize && off <= totalsize
  }

  /** The tests in 32 bits accept exactly the blocks that lie between the header and the end. */
  predicate CheckBlock(hdrsize: U32, totalsize: U32, base: U32, size: U32)
    ensures CheckBlock(hdrsize, totalsize, base, size) <==> hdrsize <= base && base + size <= totalsize
  {
    CheckOff(hdrsize, totalsize, base) && !((base + size) % WORD < base)
      && CheckOff(hdrsize, totalsize, (base + size) % WORD)
  }

  predicate VersionsFit(h: Header) {
    2 <= h.version && h.lastComp <= 17 && h.lastComp <= h.version
  }

  /** All blocks lie behind the header and inside the blob, whose size is a signed number. */
  predicate BlocksFit(h: Header) {
    var hdrsize := HeaderSize(h.version);
    && hdrsize <= h.totalsize <= 0x7fff_ffff
    && hdrsize <= h.offMemRsvmap <= h.totalsize
    && hdrsize <= h.offStruct && h.offStruct + (if h.version < 17 then 0 else h.sizeStruct) <= h.totalsize
    && hdrsize <= h.offStrings && h.offStrings + h.sizeStrings <= h.totalsize
  }

  method CheckHeader(h: Header) returns (err: int)
    ensures err == if h.magic != 0xd00d_feed then -9 else if !VersionsFit(h) then -10
      else if !BlocksFit(h) then -8 else 0
  {
    if h.magic != MAGIC { return -ERR_BADMAGIC; }
    if h.version < FIRST_SUPPORTED || h.lastComp > LAST_SUPPORTED { return -ERR_BADVERSION; }
    if h.version < h.lastComp { return -ERR_BADVERSION; }
    var hdrsize := HeaderSize(h.version);
    if h.totalsize < hdrsize || h.totalsize > 0x7fff_ffff { return -ERR_TRUNCATED; }
    if !CheckOff(hdrsize, h.totalsize, h.offMemRsvmap) { return -ERR_TRUNCATED; }
    if h.version < 17 {
      if !CheckOff(hdrsize, h.totalsize, h.offStruct) { return -ERR_TRUNCATED; }
    } else {
      if !CheckBlock(hdrsize, h.totalsize, h.offStruct, h.sizeStruct) { return -ERR_TRUNCATED; }
    }
    if !CheckBlock(hdrsize, h.totalsize, h.offStrings, h.sizeStrings) { return -ERR_TRUNCATED; }
    return 0;
  }

  /** What a reading call looks at first: the blob's size, or why it is refused. */
  function RoProbe(h: Header): (r: int)
    ensures r >= 0 ==> r == h.totalsize < 0x7fff_ffff && (h.magic == MAGIC || (h.magic == SW_MAGIC && h.sizeStruct > 0))
  {
    if h.magic == MAGIC && (h.version < FIRST_SUPPORTED || h.lastComp > LAST_SUPPORTED) then -ERR_BADVERSION
    else if h.magic == SW_MAGIC && h.sizeStruct == 0 then -ERR_BADSTATE
    else if h.magic != MAGIC && h.magic != SW_MAGIC then -ERR_BADMAGIC
    else if h.totalsize < 0x7fff_ffff then h.totalsize
    else -ERR_TRUNCATED
  }

  /** What is probed depends on the magic: the version of a finished blob, the structure's size of an unfinished one. */
  lemma ProbeMeans(h: Header)
    ensures RoProbe(h) >= 0 <==>
      h.totalsize <= 0x7fff_fffe && (if h.magic == 0xd00d_feed then h.version >= 2 && h.lastComp <= 17
        else h.magic == 0x2ff2_0112 && h.sizeStruct > 0)
    ensures RoProbe(h) == -10 <==> h.magic == 0xd00d_feed && !(h.version >= 2 && h.lastComp <= 17)
    ensures RoProbe(h) == -7 <==> h.magic == 0x2ff2_0112 && h.sizeStruct == 0
    ensures RoProbe(h) == -9 <==> h.magic != 0xd00d_feed && h.magic != 0x2ff2_0112
    ensures RoProbe(h) >= 0 || RoProbe(h) in {-7, -8, -9, -10}
  {}

  // ---------- reserve map ----------

  function GetU64(s: seq<Byte>, i: nat): U64
    requires i + 8 <= |s|
  {
    var high: int, low: int := GetU32(s, i), GetU32(s, i + 4);
    high * WORD + low
  }

  /** The test of an entry's place in 32 bits. */
  predicate RsvTest(off: U32, total: U32, n: int) {
    var absoffset := (off + 16 * n) % WORD;
    !(absoffset < off) && !(absoffset > (total - 16) % WORD)
  }

  /** It accepts every entry inside the blob; what it accepts lies inside exactly for numbers from 0 to 2^28 - 1. */
  lemma RsvTestWraps(off: U32, total: U32, n: int)
    requires off <= total && 16 <= total <= 0x7fff_ffff
    ensures n >= 0 && off + 16 * n + 16 <= total ==> RsvTest(off, total, n)
    ensures RsvTest(off, total, n) ==> (n >= 0 && off + 16 * n + 16 <= total <==> 0 <= n < 0x1000_0000)
  {}

  /** Entry n of the map as it lies in the blob. */
  ghost function EntryAt(s: seq<Byte>, off: nat, n: nat): (U64, U64)
    requires off + 16 * n + 16 <= |s|
  {
    (GetU64(s, off + 16 * n), GetU64(s, off + 16 * n + 8))
  }

  method GetMemRsv(buf: array<Byte>, h: Header, n: int) returns (err: int, address: U64, size: U64)
    requires BlocksFit(h) && h.totalsize <= buf.Length
    requires RsvTest(h.offMemRsvmap, h.totalsize, n) ==> 0 <= n < 0x1000_0000
    ensures err == if RoProbe(h) < 0 then RoProbe(h)
      else if n >= 0 && h.offMemRsvmap + 16 * n + 16 <= h.totalsize then 0 else -4
    ensures err == 0 ==> n >= 0 && (address, size) == EntryAt(buf[..], h.offMemRsvmap, n)
  {
    if RoProbe(h) < 0 { return RoProbe(h), 0, 0; }
    RsvTestWraps(h.offMemRsvmap, h.totalsize, n);
    if !RsvTest(h.offMemRsvmap, h.totalsize, n) { return -ERR_BADOFFSET, 0, 0; }
    var o := h.offMemRsvmap + 16 * n;
    address, size := ReadU64(buf, o), ReadU64(buf, o + 8);
    return 0, address, size;
  }

  function ReadU64(buf: array<Byte>, i: nat): (v: U64)
    requires i + 8 <= buf.Length
    reads buf
    ensures v == GetU64(buf[..], i)
  {
    GetU64(buf[..], i)
  }

  /** The map has n entries before the first one of size zero, all inside the blob. */
  ghost predicate EntriesEnd(s: seq<Byte>, off: nat, total: nat, n: nat)
    requires total <= |s|
  {
    && off + 16 * n + 16 <= total && EntryAt(s, off, n).1 == 0
    && forall i: nat :: i < n ==> EntryAt(s, off, i).1 != 0
  }

  /** No entry inside the blob has size zero. */
  ghost predicate NeverEnds(s: seq<Byte>, off: nat, total: nat)
    requires total <= |s|
  {
    forall i: nat :: off + 16 * i + 16 <= total ==> EntryAt(s, off, i).1 != 0
  }

  method NumMemRsv(buf: array<Byte>, h: Header) returns (n: int)
    requires BlocksFit(h) && h.totalsize <= buf.Length
    ensures n == -8 || n >= 0
    ensures n >= 0 ==> EntriesEnd(buf[..], h.offMemRsvmap, h.totalsize, n)
    ensures n < 0 <==> NeverEnds(buf[..], h.offMemRsvmap, h.totalsize)
  {
    ghost var s := buf[..];
    n := 0;
    RsvTestWraps(h.offMemRsvmap, h.totalsize, 0);
    while RsvTest(h.offMemRsvmap, h.totalsize, n)
      invariant 0 <= n <= 0x800_0000 && h.offMemRsvmap + 16 * n <= h.totalsize
      invariant forall i: nat :: i < n ==> EntryAt(s, h.offMemRsvmap, i).1 != 0
      decreases h.totalsize - 16 * n
    {
      RsvTestWraps(h.offMemRsvmap, h.totalsize, n);
      if ReadU64(buf, h.offMemRsvmap + 16 * n + 8) == 0 {
        assert EntryAt(s, h.offMemRsvmap, n).1 == 0;
        return;
      }
      n := n + 1;
    }
    RsvTestWraps(h.offMemRsvmap, h.totalsize, n);
    return -ERR_TRUNCATED;
  }

  lemma EightBack(s: seq<Byte>, i: nat, v: U64)
    requires i + 8 <= |s| && s[i..i + 8] == PutU64(v)
    ensures GetU64(s, i) == v
  {
    var b := PutU64(v);
    hide PutU32, GetU32;
    assert s[i..i + 4] == b[..4] && s[i + 4..i + 8] == b[4..];
    GetPut(v / WORD, s, i);
    GetPut(v % WORD, s, i + 4);
  }

  /** Entries are read back as they were written. */
  lemma {:induction false} ReserveReadBack(s: seq<Byte>, off: nat, rs: seq<(U64, U64)>, i: nat)
    requires i < |rs| && off + |ReserveBytes(rs)| <= |s| && s[off..off + |ReserveBytes(rs)|] == ReserveBytes(rs)
    ensures |ReserveBytes(rs)| == 16 * |rs| && EntryAt(s, off, i) == rs[i]
    decreases |rs|
  {
    hide PutU64, GetU64;
    var front, r := rs[..|rs| - 1], rs[|rs| - 1];
    var b, c := ReserveBytes(front), ReserveBytes(rs);
    ReserveLength(rs);
    ReserveLength(front);
    EightBytes(r.0);
    EightBytes(r.1);
    LastEntry(b, PutU64(r.0), PutU64(r.1));
    if i < |rs| - 1 {
      Sub(s, off, c, 0, |b|);
      ReserveReadBack(s, off, front, i);
    } else {
      Sub(s, off, c, |b|, |b| + 8);
      Sub(s, off, c, |b| + 8, |b| + 16);
      EightBack(s, off + |b|, r.0);
      EightBack(s, off + |b| + 8, r.1);
    }
  }

  lemma LastEntry(b: seq<Byte>, x: seq<Byte>, y: seq<Byte>)
    requires |x| == 8 && |y| == 8
    ensures var c := b + (x + y); c[0..|b|] == b && c[|b|..|b| + 8] == x && c[|b| + 8..|b| + 16] == y
  {}

  lemma {:induction false} ReserveLength(rs: seq<(U64, U64)>)
    ensures |ReserveBytes(rs)| == 16 * |rs|
  {
    if rs != [] { ReserveLength(rs[..|rs| - 1]); }
  }

  /** The number of entries before the first one of size zero. */
  ghost function CountBefore(rs: seq<(U64, U64)>): (n: nat)
    ensures n <= |rs| && (n < |rs| ==> rs[n].1 == 0) && forall i :: 0 <= i < n ==> rs[i].1 != 0
  {
    if rs == [] || rs[0].1 == 0 then 0 else 1 + CountBefore(rs[1..])
  }

  /** A map that was written and ended is counted up to the first entry of size zero, which may come before its end. */
  lemma CountStopsAtZero(s: seq<Byte>, off: nat, total: nat, rs: seq<(U64, U64)>, n: nat)
    requires Ended(rs) && off + 16 * |rs| <= total <= |s| && |ReserveBytes(rs)| == 16 * |rs|
    requires s[off..off + |ReserveBytes(rs)|] == ReserveBytes(rs)
    ensures EntriesEnd(s, off, total, n) <==> n == CountBefore(rs)
    ensures !NeverEnds(s, off, total)
  {
    forall i | 0 <= i < |rs|
      ensures EntryAt(s, off, i) == rs[i]
    {
      ReserveReadBack(s, off, rs, i);
    }
    hide EntryAt, ReserveBytes;
    var k := CountBefore(rs);
    assert EntryAt(s, off, |rs| - 1).1 == 0;
    assert EntryAt(s, off, k).1 == 0;
  }

  // ---------- the walk over the tokens ----------

  /** Where the walk ends: accepted, refused, or at a property whose length wraps the 32-bit sum. */
  datatype Verdict = Accepted | Refused | Wrapped

  /** A length word for which the sum of the step wraps. */
  predicate LengthWraps(len: U32) {
    len >= WORD - 12
  }

  /** The walk from an offset with so many nodes open, over any bytes; offsets are signed. */
  ghost function Walked(s: seq<Byte>, strs: seq<Byte>, o: nat, depth: nat): Verdict
    decreases if o <= |s| then |s| - o + 1 else 0
  {
    var (tag, next) := DtFormat.NextTag(s, o);
    StepFacts(s, o);
    if next < 0 || next > 0x7fff_ffff then Refused
    else if tag == END then if depth == 0 then Accepted else Refused
    else if tag == BEGIN_NODE then Walked(s, strs, next, depth + 1)
    else if tag == END_NODE then if depth == 0 then Refused else Walked(s, strs, next, depth - 1)
    else if tag == PROP then
      if LengthWraps(GetU32(s, o + 4)) then Wrapped
      else if HasString(strs, GetU32(s, o + 8)) then Walked(s, strs, next, depth)
      else Refused
    else Walked(s, strs, next, depth)
  }

  /**
    A step that does not fail is inside the block, reads one of the five tags and moves on, unless its length wraps.
  */
  lemma StepFacts(s: seq<Byte>, o: nat)
    ensures var (tag, next) := DtFormat.NextTag(s, o);
      next >= 0 ==>
        && o + 4 <= |s| && tag == GetU32(s, o)
        && (tag == BEGIN_NODE || tag == END_NODE || tag == PROP || tag == NOP || tag == END)
        && (tag == PROP ==>
          o + 8 <= |s| && (LengthWraps(GetU32(s, o + 4)) || (o + 12 + GetU32(s, o + 4) <= |s| && next >= o + 12)))
        && (tag != PROP ==> next >= o + 4)
        && (tag == BEGIN_NODE ==> NulAt(s, o + 4) < |s| && next == Align4(NulAt(s, o + 4) + 1))
        && (tag == PROP && !LengthWraps(GetU32(s, o + 4)) ==> next == Align4(o + 12 + GetU32(s, o + 4)))
        && (tag != PROP && tag != BEGIN_NODE ==> next == Align4(o + 4))
  {}

  /** The nodes open before a line, and what the line opens and closes, come out even. */
  ghost predicate BalancedFrom(es: seq<Event>, depth: nat) {
    if es == [] then depth == 0
    else if es[0].Enter? then BalancedFrom(es[1..], depth + 1)
    else if es[0].Leave? then depth > 0 && BalancedFrom(es[1..], depth - 1)
    else BalancedFrom(es[1..], depth)
  }

  /** Nothing is left that was not entered. */
  ghost predicate StaysOpen(es: seq<Event>, depth: int) {
    forall x :: 0 <= x <= |es| ==> depth + Level(es, x) >= 0
  }

  /** Every node entered is left again, and nothing is left that was not entered. */
  ghost predicate Balanced(es: seq<Event>) {
    StaysOpen(es, 0) && Level(es, |es|) == 0
  }

  lemma LevelAfter(es: seq<Event>, x: nat)
    requires es != [] && x < |es|
    ensures Level(es, x + 1) == Delta(es[0]) + Level(es[1..], x)
  {
    assert es == [es[0]] + es[1..];
    LevelShift([es[0]], es[1..], x);
    assert Level([es[0]], 1) == Delta(es[0]);
  }

  lemma StaysStep(es: seq<Event>, depth: int)
    requires es != [] && depth >= 0
    ensures StaysOpen(es, depth) <==> StaysOpen(es[1..], depth + Delta(es[0]))
  {
    var d := depth + Delta(es[0]);
    if StaysOpen(es, depth) {
      forall x | 0 <= x <= |es| - 1
        ensures d + Level(es[1..], x) >= 0
      {
        LevelAfter(es, x);
      }
    }
    if StaysOpen(es[1..], d) {
      forall x | 0 <= x <= |es|
        ensures depth + Level(es, x) >= 0
      {
        if x > 0 { LevelAfter(es, x - 1); }
      }
    }
  }

  lemma StaysMeans(es: seq<Event>, depth: int)
    ensures StaysOpen(es, depth) ==> depth >= 0
    ensures es == [] && depth >= 0 ==> StaysOpen(es, depth)
    ensures es == [] ==> Level(es, |es|) == 0
  {
    assert Level(es, 0) == 0;
  }

  lemma {:induction false} BalancedByLevels(es: seq<Event>, depth: nat)
    ensures BalancedFrom(es, depth) <==> StaysOpen(es, depth) && depth + Level(es, |es|) == 0
  {
    StaysMeans(es, depth);
    if es != [] {
      var d := depth + Delta(es[0]);
      StaysStep(es, depth);
      StaysMeans(es[1..], d);
      LevelAfter(es, |es| - 1);
      if d >= 0 { BalancedByLevels(es[1..], d); }
    }
    hide Level, StaysOpen;
  }

  /** A tree's line is balanced. */
  lemma TreesAreBalanced(t: Node)
    ensures Balanced(Flatten(t))
  {
    forall x | 0 <= x <= |Flatten(t)|
      ensures Level(Flatten(t), x) >= 0
    {
      NodeLevel(t, x);
    }
    NodeLevel(t, |Flatten(t)|);
  }

  // ---------- what the walk accepts ----------

  lemma NameToken(s: seq<Byte>, o: nat, next: nat) returns (t: Token)
    requires Aligned(o) && o + 4 <= |s| && GetU32(s, o) == BEGIN_NODE && NulAt(s, o + 4) < |s|
    requires next == Align4(NulAt(s, o + 4) + 1) && next <= |s|
    ensures Wf(t) && t.BeginNode? && o + |Bytes(t)| == next && s[o..next] == Bytes(t)
  {
    var n := NulAt(s, o + 4);
    var name, pad := s[o + 4..n], s[n + 1..next];
    t := Token.BeginNode(name, pad);
    hide PutU32, GetU32, NulAt, Aligned, Align4;
    AlignAfter(o, |name|, n);
    PutGet(s, o);
    NameBytesAre(s, o, n, next);
  }

  lemma NameBytesAre(s: seq<Byte>, o: nat, n: nat, next: nat)
    requires o + 4 <= n < next <= |s| && s[n] == 0 && s[o..o + 4] == PutU32(BEGIN_NODE)
    requires Wf(Token.BeginNode(s[o + 4..n], s[n + 1..next]))
    ensures s[o..next] == Bytes(Token.BeginNode(s[o + 4..n], s[n + 1..next]))
  {
    hide PutU32, Wf;
    assert s[o..next] == s[o..o + 4] + (s[o + 4..n] + [s[n]] + s[n + 1..next]);
  }

  lemma PropToken(s: seq<Byte>, o: nat, next: nat) returns (t: Token)
    requires Aligned(o) && o + 12 <= |s| < 0x7fff_ffff && o + 12 + GetU32(s, o + 4) <= |s| && GetU32(s, o) == PROP
    requires next == Align4(o + 12 + GetU32(s, o + 4)) && next <= |s|
    ensures Wf(t) && t.Prop? && t.nameoff == GetU32(s, o + 8) && o + |Bytes(t)| == next && s[o..next] == Bytes(t)
  {
    var len, nameoff := GetU32(s, o + 4), GetU32(s, o + 8);
    t := Prop(nameoff, s[o + 12..o + 12 + len], s[o + 12 + len..next]);
    hide PutU32, GetU32, Aligned, Align4;
    AlignedFour(o);
    AlignShift(o + 12, len);
    PutGet(s, o);
    PutGet(s, o + 4);
    PutGet(s, o + 8);
    PropBytesAre(s, o, len, nameoff, next);
  }

  lemma PropBytesAre(s: seq<Byte>, o: nat, len: nat, nameoff: U32, next: nat)
    requires o + 12 + len <= next <= |s| && len < 0x8000_0000
    requires s[o..o + 4] == PutU32(PROP) && s[o + 4..o + 8] == PutU32(len) && s[o + 8..o + 12] == PutU32(nameoff)
    requires Wf(Prop(nameoff, s[o + 12..o + 12 + len], s[o + 12 + len..next]))
    ensures s[o..next] == Bytes(Prop(nameoff, s[o + 12..o + 12 + len], s[o + 12 + len..next]))
  {
    hide *;
    FiveParts(s, o, o + 4, o + 8, o + 12, o + 12 + len, next);
    BytesOfProp(nameoff, s[o + 12..o + 12 + len], s[o + 12 + len..next]);
  }

  lemma BytesOfProp(nameoff: U32, value: seq<Byte>, pad: seq<Byte>)
    requires Wf(Prop(nameoff, value, pad))
    ensures Bytes(Prop(nameoff, value, pad)) == PutU32(PROP) + (PutU32(|value|) + PutU32(nameoff) + value + pad)
  {
    hide PutU32, Wf;
  }

  lemma FiveParts(s: seq<Byte>, h: nat, i: nat, j: nat, k: nat, l: nat, m: nat)
    requires h <= i <= j <= k <= l <= m <= |s|
    ensures s[h..m] == s[h..i] + (s[i..j] + s[j..k] + s[k..l] + s[l..m])
  {
    TwoParts(s, i, j, k);
    TwoParts(s, i, k, l);
    TwoParts(s, i, l, m);
    TwoParts(s, h, i, m);
  }

  lemma TwoParts(s: seq<Byte>, i: nat, j: nat, k: nat)
    requires i <= j <= k <= |s|
    ensures s[i..k] == s[i..j] + s[j..k]
  {}

  lemma PlainToken(s: seq<Byte>, o: nat, next: nat) returns (t: Token)
    requires Aligned(o) && o + 4 <= |s| && (GetU32(s, o) == END_NODE || GetU32(s, o) == NOP) && next == Align4(o + 4)
      && next <= |s|
    ensures Wf(t) && t == (if GetU32(s, o) == END_NODE then Token.EndNode else Nop)
    ensures o + |Bytes(t)| == next && s[o..next] == Bytes(t)
  {
    t := if GetU32(s, o) == END_NODE then Token.EndNode else Nop;
    AlignShift(o, 4);
    FourIsAligned();
    PutGet(s, o);
    hide PutU32, GetU32, Aligned, Align4;
    assert Bytes(t) == PutU32(Tag(t)) + [];
  }

  /** The token a successful step passes over, its padding included. */
  lemma TokenRead(s: seq<Byte>, o: nat) returns (t: Token)
    requires Aligned(o) && |s| < 0x7fff_ffff
    requires var (tag, next) := DtFormat.NextTag(s, o);
      0 <= next <= |s| && tag != END && !(tag == PROP && LengthWraps(GetU32(s, o + 4)))
    ensures var (tag, next) := DtFormat.NextTag(s, o);
      && Wf(t) && o + |Bytes(t)| == next && s[o..next] == Bytes(t) && tag == Tag(t)
      && (t.Prop? ==> o + 12 <= |s| && t.nameoff == GetU32(s, o + 8))
  {
    var (tag, next) := DtFormat.NextTag(s, o);
    StepFacts(s, o);
    hide DtFormat.NextTag, GetU32, Bytes, NulAt, Aligned, Wf, LengthWraps;
    if tag == BEGIN_NODE {
      t := NameToken(s, o, next);
    } else if tag == PROP {
      t := PropToken(s, o, next);
    } else {
      t := PlainToken(s, o, next);
    }
  }

  /** The tokens from an offset on, up to an end tag, with every name in the strings. */
  ghost predicate ParsedFrom(s: seq<Byte>, strs: seq<Byte>, o: nat, ts: seq<Token>) {
    && AllWf(ts) && NamesOk(ts, strs)
    && o + |Encode(ts)| + 4 <= |s| && s[o..o + |Encode(ts)|] == Encode(ts)
    && GetU32(s, o + |Encode(ts)|) == END
  }

  lemma ParsedNone(s: seq<Byte>, strs: seq<Byte>, o: nat)
    requires o + 4 <= |s| && GetU32(s, o) == END
    ensures ParsedFrom(s, strs, o, []) && Events([], strs) == []
  {}

  lemma ParsedMore(s: seq<Byte>, strs: seq<Byte>, o: nat, next: nat, t: Token, ts: seq<Token>)
    requires Wf(t) && (t.Prop? ==> HasString(strs, t.nameoff)) && o + |Bytes(t)| == next <= |s|
      && s[o..next] == Bytes(t)
    requires ParsedFrom(s, strs, next, ts)
    ensures ParsedFrom(s, strs, o, [t] + ts)
    ensures Events([t] + ts, strs) == (if t.Nop? then [] else [Ev(t, strs)]) + Events(ts, strs)
  {
    hide Bytes, GetU32, HasString, Wf, Ev;
    var us := [t] + ts;
    assert us[0] == t && us[1..] == ts;
    assert Encode(us) == Bytes(t) + Encode(ts);
    var n := next + |Encode(ts)|;
    assert s[o..n] == s[o..next] + s[next..n];
  }

  lemma {:induction false} AcceptedParses(s: seq<Byte>, strs: seq<Byte>, o: nat, depth: nat) returns (ts: seq<Token>)
    requires Walked(s, strs, o, depth) == Accepted && Aligned(o) && |s| < 0x7fff_ffff
    ensures ParsedFrom(s, strs, o, ts) && BalancedFrom(Events(ts, strs), depth)
    decreases if o <= |s| then |s| - o + 1 else 0
  {
    var (tag, next) := DtFormat.NextTag(s, o);
    StepFacts(s, o);
    hide DtFormat.NextTag, GetU32, Bytes, NulAt, HasString, Wf, AllWf, NamesOk, ParsedFrom, Events, LengthWraps;
    if tag == END {
      ParsedNone(s, strs, o);
      ts := [];
    } else {
      var d := if tag == BEGIN_NODE then depth + 1 else if tag == END_NODE then depth - 1 else depth;
      StepFacts(s, next);
      var t := TokenRead(s, o);
      NextAligned(s, o, t, next);
      var us := AcceptedParses(s, strs, next, d);
      ParsedMore(s, strs, o, next, t, us);
      ParsedNames(s, strs, next, us);
      ParsedNames(s, strs, o, [t] + us);
      FirstEvent(t, us, strs, depth, d);
      ts := [t] + us;
    }
  }

  lemma NextAligned(s: seq<Byte>, o: nat, t: Token, next: nat)
    requires Aligned(o) && Wf(t) && o + |Bytes(t)| == next
    ensures Aligned(next)
  {
    BytesAligned(t);
    AlignedSum(o, |Bytes(t)|);
    hide Bytes, Aligned;
  }

  lemma ParsedNames(s: seq<Byte>, strs: seq<Byte>, o: nat, ts: seq<Token>)
    requires ParsedFrom(s, strs, o, ts)
    ensures NamesOk(ts, strs) && AllWf(ts)
  {}

  /** How the first token changes what is open. */
  lemma FirstEvent(t: Token, ts: seq<Token>, strs: seq<Byte>, depth: nat, d: int)
    requires (t.Prop? ==> HasString(strs, t.nameoff)) && NamesOk(ts, strs) && NamesOk([t] + ts, strs)
    requires Events([t] + ts, strs) == (if t.Nop? then [] else [Ev(t, strs)]) + Events(ts, strs)
    requires d == if t.BeginNode? then depth + 1 else if t.EndNode? then depth - 1 else depth
    ensures BalancedFrom(Events([t] + ts, strs), depth) <==> d >= 0 && BalancedFrom(Events(ts, strs), d)
  {
    var es, rest := Events([t] + ts, strs), Events(ts, strs);
    hide Events;
    if t.Nop? {
      assert es == rest;
    } else {
      assert es[0] == Ev(t, strs) && es[1..] == rest;
    }
  }

  /** On a block of tokens the walk accepts exactly what comes out even. */
  lemma {:induction false} WalkOver(s: seq<Byte>, strs: seq<Byte>, o: nat, ts: seq<Token>, depth: nat)
    requires ParsedFrom(s, strs, o, ts) && Aligned(o) && |s| < 0x7fff_ffff
    ensures NamesOk(ts, strs) && Walked(s, strs, o, depth) == if BalancedFrom(Events(ts, strs), depth) then Accepted
      else Refused
    decreases |ts|
  {
    hide *;
    ParsedNames(s, strs, o, ts);
    if ts == [] {
      EmptyParsed(s, strs, o);
      EndStep(s, o);
      WalkStep(s, strs, o, depth);
    } else {
      var t, us := ts[0], ts[1..];
      assert ts == [t] + us;
      ParsedFirst(s, strs, o, t, us);
      var next := o + |Bytes(t)|;
      StepOver(s, o, t);
      PropWords(s, o, t);
      WalkToken(s, strs, o, next, t, depth);
      NextAligned(s, o, t, next);
      var d := if t.BeginNode? then depth + 1 else if t.EndNode? then depth - 1 else depth;
      ParsedMore(s, strs, o, next, t, us);
      ParsedNames(s, strs, next, us);
      FirstEvent(t, us, strs, depth, d);
      if d >= 0 { WalkOver(s, strs, next, us, d); }
    }
  }

  lemma EmptyParsed(s: seq<Byte>, strs: seq<Byte>, o: nat)
    requires ParsedFrom(s, strs, o, [])
    ensures o + 4 <= |s| && GetU32(s, o) == END && Events([], strs) == []
    ensures forall depth: nat :: BalancedFrom([], depth) <==> depth == 0
  {}

  lemma WalkStep(s: seq<Byte>, strs: seq<Byte>, o: nat, depth: nat)
    requires DtFormat.NextTag(s, o) == (END, o + 4) && o + 4 <= 0x7fff_ffff
    ensures Walked(s, strs, o, depth) == if depth == 0 then Accepted else Refused
  {}

  /** The walk over one token. */
  lemma WalkToken(s: seq<Byte>, strs: seq<Byte>, o: nat, next: nat, t: Token, depth: nat)
    requires DtFormat.NextTag(s, o) == (Tag(t), next) && next <= 0x7fff_ffff && (t.Prop? ==> HasString(strs, t.nameoff))
    requires t.Prop? ==> o + 12 <= |s| && !LengthWraps(GetU32(s, o + 4)) && GetU32(s, o + 8) == t.nameoff
    ensures
      var d := if t.BeginNode? then depth + 1 else if t.EndNode? then depth - 1 else depth;
      Walked(s, strs, o, depth) == if d < 0 then Refused else Walked(s, strs, next, d)
  {
    StepFacts(s, o);
    hide DtFormat.NextTag, GetU32, HasString, LengthWraps;
  }

  lemma EndStep(s: seq<Byte>, o: nat)
    requires Aligned(o) && o + 4 <= |s| && GetU32(s, o) == END
    ensures DtFormat.NextTag(s, o) == (END, o + 4)
  {
    hide *;
    NextTagPlain(s, o, END);
    AlignShift(o, 4);
    FourIsAligned();
  }

  lemma ParsedFirst(s: seq<Byte>, strs: seq<Byte>, o: nat, t: Token, us: seq<Token>)
    requires ParsedFrom(s, strs, o, [t] + us)
    ensures Wf(t) && (t.Prop? ==> HasString(strs, t.nameoff)) && o + |Bytes(t)| <= |s|
      && s[o..o + |Bytes(t)|] == Bytes(t)
    ensures ParsedFrom(s, strs, o + |Bytes(t)|, us)
  {
    hide Bytes, GetU32, HasString, Wf;
    var ts := [t] + us;
    assert ts[0] == t && ts[1..] == us && t in ts;
    assert AllWf(us) && NamesOk(us, strs);
    var e, f, n := Encode(us), Bytes(t), o + |Bytes(t)|;
    assert Encode(ts) == f + e;
    Sub(s, o, f + e, 0, |f|);
    Sub(s, o, f + e, |f|, |f + e|);
    assert (f + e)[0..|f|] == f && (f + e)[|f|..|f + e|] == e;
  }

  /** A property token's words, as the walk reads them. */
  lemma PropWords(s: seq<Byte>, o: nat, t: Token)
    requires Wf(t) && Aligned(o) && o + |Bytes(t)| <= |s| && s[o..o + |Bytes(t)|] == Bytes(t)
    ensures t.Prop? ==> o + 12 <= |s| && !LengthWraps(GetU32(s, o + 4)) && GetU32(s, o + 8) == t.nameoff
  {
    if t.Prop? {
      PropStep(s, o, t.nameoff, t.value, t.pad);
      ValueFits(t.nameoff, t.value, t.pad);
    }
    hide Bytes, GetU32, Aligned, Wf, DtFormat.NextTag;
  }

  /** The structure block of a balanced tree of tokens, with its names in the strings. */
  ghost predicate WellFormed(s: seq<Byte>, strs: seq<Byte>) {
    exists ts, tail :: AllWf(ts) && NamesOk(ts, strs) && s == Block(ts, tail) && Balanced(Events(ts, strs))
  }

  /** Of all bytes the walk accepts exactly well-formed, balanced blocks, as long as it meets no length that wraps. */
  lemma AcceptsWellFormed(s: seq<Byte>, strs: seq<Byte>)
    requires |s| < 0x7fff_ffff
    ensures Walked(s, strs, 0, 0) == Accepted <==> WellFormed(s, strs)
  {
    hide *;
    ZeroAligned();
    if Walked(s, strs, 0, 0) == Accepted {
      var ts := AcceptedParses(s, strs, 0, 0);
      ParsedNames(s, strs, 0, ts);
      BalancedByLevels(Events(ts, strs), 0);
      BalancedMeans(Events(ts, strs));
      ParsedIsBlock(s, strs, ts);
      IsWellFormed(s, strs, ts, s[|Encode(ts)| + 4..]);
    }
    if WellFormed(s, strs) {
      var ts, tail := WellFormedBy(s, strs);
      BlockIsParsed(s, strs, ts, tail);
      WalkOver(s, strs, 0, ts, 0);
      BalancedByLevels(Events(ts, strs), 0);
      BalancedMeans(Events(ts, strs));
    }
  }

  lemma ZeroAligned()
    ensures Aligned(0)
  {}

  lemma BalancedMeans(es: seq<Event>)
    ensures Balanced(es) <==> StaysOpen(es, 0) && Level(es, |es|) == 0
  {}

  lemma ParsedIsBlock(s: seq<Byte>, strs: seq<Byte>, ts: seq<Token>)
    requires ParsedFrom(s, strs, 0, ts)
    ensures AllWf(ts) && |Encode(ts)| + 4 <= |s| && s == Block(ts, s[|Encode(ts)| + 4..])
  {
    var n := |Encode(ts)|;
    PutGet(s, n);
    SplitBlock(s, n);
    hide Encode, PutU32, GetU32, AllWf, NamesOk;
  }

  lemma SplitBlock(s: seq<Byte>, n: nat)
    requires n + 4 <= |s|
    ensures s == s[0..n] + s[n..n + 4] + s[n + 4..]
  {}

  lemma BlockIsParsed(s: seq<Byte>, strs: seq<Byte>, ts: seq<Token>, tail: seq<Byte>)
    requires AllWf(ts) && NamesOk(ts, strs) && s == Block(ts, tail)
    ensures ParsedFrom(s, strs, 0, ts)
  {
    var n := |Encode(ts)|;
    hide Encode, PutU32, GetU32;
    assert s[0..n] == Encode(ts) && s[n..n + 4] == PutU32(END);
    GetPut(END, s, n);
  }

  lemma IsWellFormed(s: seq<Byte>, strs: seq<Byte>, ts: seq<Token>, tail: seq<Byte>)
    requires AllWf(ts) && NamesOk(ts, strs) && s == Block(ts, tail) && Balanced(Events(ts, strs))
    ensures WellFormed(s, strs)
  {}

  lemma WellFormedBy(s: seq<Byte>, strs: seq<Byte>) returns (ts: seq<Token>, tail: seq<Byte>)
    requires WellFormed(s, strs)
    ensures AllWf(ts) && NamesOk(ts, strs) && s == Block(ts, tail) && Balanced(Events(ts, strs))
  {
    hide Balanced, Block, Events, AllWf, NamesOk;
    ts, tail :| AllWf(ts) && NamesOk(ts, strs) && s == Block(ts, tail) && Balanced(Events(ts, strs));
  }

  // ---------- the check ----------

  /** The walk, on any bytes; at a length that wraps it is left to itself. */
  method CheckTokens(b: Blob) returns (err: int, wrapped: bool)
    requires b.Layout()
    ensures wrapped <==> Walked(b.Struct(), b.Strings(), 0, 0) == Wrapped
    ensures !wrapped ==> err <= 0 && (err == 0 <==> WellFormed(b.Struct(), b.Strings()))
  {
    hide *;
    BlockBounds(b);
    Tags();
    ghost var s, strs := b.Struct(), b.Strings();
    AcceptsWellFormed(s, strs);
    wrapped := false;
    var depth, nextoffset := 0, 0;
    while true
      invariant 0 <= depth <= nextoffset <= 0x7fff_ffff && Walked(s, strs, nextoffset, depth) == Walked(s, strs, 0, 0)
      decreases |s| - nextoffset
    {
      var offset := nextoffset;
      var tag;
      tag, nextoffset := b.NextTag(offset);
      StepFacts(s, offset);
      WalkedIs(s, strs, offset, depth);
      if nextoffset < 0 { return nextoffset, false; }
      if nextoffset > 0x7fff_ffff { return nextoffset - WORD, false; }
      if tag == END { return if depth != 0 then -ERR_BADSTRUCTURE else 0, false; }
      if tag == BEGIN_NODE {
        depth := depth + 1;
        if depth > 0x7fff_ffff { return -ERR_BADSTRUCTURE, false; }
      } else if tag == END_NODE {
        if depth == 0 { return -ERR_BADSTRUCTURE, false; }
        depth := depth - 1;
      } else if tag == PROP {
        var len := b.ReadU32(offset + 4);
        WrapsMeans(len);
        if len >= WORD - 12 { return 0, true; }
        var nameoff := b.ReadU32(offset + 8);
        var ok, name := GetString(b, nameoff);
        if !ok { return if nameoff >= b.sizeStrings then -ERR_BADOFFSET else -ERR_TRUNCATED, false; }
      }
    }
  }

  lemma Tags()
    ensures WORD == 0x1_0000_0000 && BEGIN_NODE == 1 && END_NODE == 2 && PROP == 3 && NOP == 4 && END == 9
    ensures ERR_BADSTRUCTURE == 11 && ERR_TRUNCATED == 8 && ERR_BADOFFSET == 4
  {}

  lemma BlockBounds(b: Blob)
    requires b.Layout()
    ensures |b.Struct()| == b.sizeStruct < 0x7fff_ffff && b.sizeStrings < 0x7fff_ffff
  {}

  lemma WrapsMeans(len: U32)
    ensures LengthWraps(len) <==> len >= WORD - 12
  {}

  lemma WalkedIs(s: seq<Byte>, strs: seq<Byte>, o: nat, depth: nat)
    ensures var (tag, next) := DtFormat.NextTag(s, o);
      Walked(s, strs, o, depth) ==
        if next < 0 || next > 0x7fff_ffff then Refused
        else if tag == END then if depth == 0 then Accepted else Refused
        else if tag == BEGIN_NODE then Walked(s, strs, next, depth + 1)
        else if tag == END_NODE then if depth == 0 then Refused else Walked(s, strs, next, depth - 1)
        else if tag == PROP then
          if o + 8 <= |s| && LengthWraps(GetU32(s, o + 4)) then Wrapped
          else if o + 12 <= |s| && HasString(strs, GetU32(s, o + 8)) then Walked(s, strs, next, depth)
          else Refused
        else Walked(s, strs, next, depth)
  {
    StepFacts(s, o);
    hide DtFormat.NextTag, GetU32, HasString, LengthWraps;
  }

  /** The header's fields are the blob's. */
  ghost predicate SameFields(h: Header, b: Blob)
    reads b
  {
    && h.totalsize == b.totalsize && h.offStruct == b.offStruct && h.sizeStruct == b.sizeStruct
    && h.offStrings == b.offStrings && h.sizeStrings == b.sizeStrings
  }

  /** Header and reserve map pass. */
  ghost predicate FrameFits(h: Header, s: seq<Byte>, bufsize: nat)
    requires h.totalsize <= |s|
  {
    h.magic == 0xd00d_feed && VersionsFit(h) && BlocksFit(h) && h.totalsize <= bufsize
      && !NeverEnds(s, h.offMemRsvmap, h.totalsize)
  }

  /** For headers of the last version; the blocks of older ones are read in another way. */
  method CheckFull(b: Blob, h: Header, bufsize: nat) returns (err: int, wrapped: bool)
    requires b.Layout() && SameFields(h, b) && (VersionsFit(h) ==> h.version >= LAST_SUPPORTED)
    ensures wrapped <==> FrameFits(h, b.buf[..], bufsize) && Walked(b.Struct(), b.Strings(), 0, 0) == Wrapped
    ensures !wrapped ==> err <= 0
    ensures !wrapped ==> (err == 0 <==> FrameFits(h, b.buf[..], bufsize) && WellFormed(b.Struct(), b.Strings()))
    ensures !FrameFits(h, b.buf[..], bufsize) ==>
      err == if bufsize < HeaderSize(h.version) then -8 else if h.magic != 0xd00d_feed then -9
        else if !VersionsFit(h) then -10 else -8
  {
    hide NeverEnds, EntriesEnd, Walked, WellFormed;
    wrapped := false;
    if bufsize < 28 { return -ERR_TRUNCATED, false; }
    if bufsize < HeaderSize(h.version) { return -ERR_TRUNCATED, false; }
    err := CheckHeader(h);
    if err != 0 { return; }
    if bufsize < h.totalsize { return -ERR_TRUNCATED, false; }
    var n := NumMemRsv(b.buf, h);
    if n < 0 { return n, false; }
    err, wrapped := CheckTokens(b);
  }

  // ---------- a finished blob ----------

  /** The header a finished tree is given. */
  ghost function FinishedHeader(b: Blob): Header
    reads b
    requires b.Layout()
  {
    Header(MAGIC, b.totalsize, b.offStruct, b.offStrings, HEADER_SIZE, LAST_SUPPORTED, FIRST_SUPPORTED, b.sizeStrings,
      b.sizeStruct)
  }

  /**
    The blob a writer has finished passes the full check exactly when its line is balanced. Its reserve entries are
    read back as they were written, and are counted up to the first one of size zero.
  */
  lemma FinishedPasses(b: Blob, rs: seq<(U64, U64)>)
    requires b.Valid() && b.totalsize == b.offStrings + b.sizeStrings && Ended(rs)
    requires HEADER_SIZE <= b.offStruct && Part(b.Front(), HEADER_SIZE, b.offStruct - HEADER_SIZE) == ReserveBytes(rs)
    ensures
      var h := FinishedHeader(b);
      && SameFields(h, b) && FrameFits(h, b.buf[..], b.totalsize)
      && EntriesEnd(b.buf[..], h.offMemRsvmap, h.totalsize, CountBefore(rs))
      && (forall i :: 0 <= i < |rs| ==>
        h.offMemRsvmap + 16 * i + 16 <= b.buf.Length && EntryAt(b.buf[..], h.offMemRsvmap, i) == rs[i])
    ensures Walked(b.Struct(), b.Strings(), 0, 0) != Wrapped
    ensures WellFormed(b.Struct(), b.Strings()) <==> Balanced(b.Line())
  {
    hide *;
    ValidIs(b);
    BlockBounds(b);
    FinishedFrame(b, rs);
    var s, strs := b.Struct(), b.Strings();
    ZeroAligned();
    BlockIsParsed(s, strs, b.ts, b.tail);
    WalkOver(s, strs, 0, b.ts, 0);
    AcceptsWellFormed(s, strs);
    BalancedByLevels(b.Line(), 0);
    BalancedMeans(b.Line());
  }

  lemma ValidIs(b: Blob)
    requires b.Valid()
    ensures b.Layout() && AllWf(b.ts) && NamesOk(b.ts, b.Strings()) && b.Struct() == Block(b.ts, b.tail)
    ensures b.Line() == Events(b.ts, b.Strings())
  {}

  lemma FinishedFits(b: Blob)
    requires b.Layout() && b.totalsize == b.offStrings + b.sizeStrings && HEADER_SIZE <= b.offStruct
    ensures
      var h := FinishedHeader(b);
      SameFields(h, b) && VersionsFit(h) && BlocksFit(h)
  {}

  /** The map in front of the structure block, read where it lies in the whole blob. */
  lemma MapInFront(s: seq<Byte>, end: nat, total: nat, rs: seq<(U64, U64)>)
    requires HEADER_SIZE <= end <= total <= |s| && Ended(rs)
    requires Part(Part(s, 0, end), HEADER_SIZE, end - HEADER_SIZE) == ReserveBytes(rs)
    ensures EntriesEnd(s, HEADER_SIZE, total, CountBefore(rs)) && !NeverEnds(s, HEADER_SIZE, total)
    ensures forall i :: 0 <= i < |rs| ==>
      HEADER_SIZE + 16 * i + 16 <= end && EntryAt(s, HEADER_SIZE, i) == rs[i]
  {
    hide ReserveBytes, EntryAt, Ended, EntriesEnd, NeverEnds, CountBefore;
    ReserveLength(rs);
    Slice(s, 0, end, HEADER_SIZE, end);
    assert s[HEADER_SIZE..end] == ReserveBytes(rs);
    CountStopsAtZero(s, HEADER_SIZE, total, rs, CountBefore(rs));
    forall i | 0 <= i < |rs|
      ensures EntryAt(s, HEADER_SIZE, i) == rs[i]
    {
      ReserveReadBack(s, HEADER_SIZE, rs, i);
    }
  }

  lemma FinishedFrame(b: Blob, rs: seq<(U64, U64)>)
    requires b.Layout() && b.totalsize == b.offStrings + b.sizeStrings && Ended(rs)
    requires HEADER_SIZE <= b.offStruct && Part(b.Front(), HEADER_SIZE, b.offStruct - HEADER_SIZE) == ReserveBytes(rs)
    ensures
      var h := FinishedHeader(b);
      && SameFields(h, b) && FrameFits(h, b.buf[..], b.totalsize)
      && EntriesEnd(b.buf[..], h.offMemRsvmap, h.totalsize, CountBefore(rs))
      && (forall i :: 0 <= i < |rs| ==>
        h.offMemRsvmap + 16 * i + 16 <= b.buf.Length && EntryAt(b.buf[..], h.offMemRsvmap, i) == rs[i])
  {
    FinishedFits(b);
    hide ReserveBytes, EntryAt, Ended, EntriesEnd, NeverEnds, VersionsFit, BlocksFit, SameFields, CountBefore, Part;
    MapInFront(b.buf[..], b.offStruct, b.totalsize, rs);
  }
}
