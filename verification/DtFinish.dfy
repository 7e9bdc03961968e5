/** From an unfinished tree to a finished one, and the check of a finished one. */
module DtFinish {
  import opened DtFormat
  import opened DtTree
  import opened DtEvents
  import opened DtBlob
  import opened DtRead
  import opened DtEdit
  import opened DtWriter

  const ERR_BADFLAGS: int := 18

  /** An empty writer over a cleared buffer. */
  method Create(buf: array<Byte>, bufsize: int, flags: nat) returns (err: int, w: Writer?)
    requires bufsize <= buf.Length && bufsize < 0x7fff_ffff
    modifies buf
    ensures err == if bufsize < 48 then -3 else if flags > 1 then -18 else 0
    ensures err == 0 <==> w != null
    ensures err == 0 ==> buf[..] == seq(bufsize, i => 0) + old(buf[bufsize..])
    ensures err != 0 ==> buf[..] == old(buf[..])
    ensures w != null ==> fresh(w) && w.buf == buf && w.Valid() && w.InMemrsv() && w.Line() == [] && w.reserved == []
    ensures w != null ==> w.totalsize == bufsize && (w.dedup <==> flags == 0)
  {
    if bufsize < HEADER_SIZE { return -ERR_NOSPACE, null; }
    if flags > 1 { return -ERR_BADFLAGS, null; }
    forall i | 0 <= i < bufsize {
      buf[i] := 0;
    }
    assert buf[..] == seq(bufsize, i => 0) + old(buf[bufsize..]);
    w := new Writer(buf);
    w.complete, w.dedup := false, flags == 0;
    w.totalsize, w.offStruct, w.sizeStruct, w.offStrings, w.sizeStrings := bufsize, HEADER_SIZE, 0, 0, 0;
    w.ts, w.reserved := [], [];
    EmptyLaid(buf[..], bufsize);
    hide Laid, Said;
    w.NothingYet();
    err := 0;
  }

  lemma EmptyLaid(b: seq<Byte>, total: nat)
    requires HEADER_SIZE <= total <= |b| && total < 0x7fff_ffff
    ensures Laid(b, total, HEADER_SIZE, 0, 0, [], [])
  {}

  // ---------- relocating names ----------

  /** The first j tokens count names from the start of the strings, the others still from the end. */
  ghost function Halfway(ts: seq<Token>, j: nat, n: nat): seq<Token>
    requires j <= |ts|
  {
    Relocated(ts[..j], n) + ts[j..]
  }

  lemma HalfwayAt(ts: seq<Token>, j: nat, n: nat)
    requires j < |ts|
    ensures var h := Halfway(ts, j, n);
      |h| == |ts| && h[j] == ts[j] && Halfway(ts, j + 1, n) == h[j := Moved1(ts[j], n)]
  {
    assert ts[..j + 1] == ts[..j] + [ts[j]];
  }

  lemma HalfwayEnds(ts: seq<Token>, n: nat)
    ensures Halfway(ts, 0, n) == ts && Halfway(ts, |ts|, n) == Relocated(ts, n)
  {
    assert ts[..|ts|] == ts;
  }

  lemma AllWfAfter(ts: seq<Token>, j: nat, n: nat)
    requires AllWf(ts) && j < |ts| && AllWf(Halfway(ts, j, n))
    ensures Wf(ts[j]) && AllWf(Halfway(ts, j + 1, n))
  {
    HalfwayAt(ts, j, n);
    assert ts[j] in ts;
  }

  /** One property's name word written anew. */
  lemma NameRewritten(us: seq<Token>, tail: seq<Byte>, s: seq<Byte>, u: seq<Byte>, j: nat, nameoff: U32)
    requires AllWf(us) && j < |us| && us[j].Prop? && Wf(us[j]) && s == Block(us, tail)
    requires Written(s, u, Off(us, j) + 8, PutU32(nameoff))
    ensures var ws := us[j := Prop(nameoff, us[j].value, us[j].pad)];
      AllWf(ws) && u == Block(ws, tail)
  {
    hide *;
    var t := us[j];
    var p := Prop(nameoff, t.value, t.pad);
    var o, n := Off(us, j), 12 + Align4(|t.value|);
    PropHere(us, tail, j);
    PadHere(us, tail, j);
    AroundSelf(s, o, o + n);
    AroundWritten(s, s, u, o + 8, PutU32(nameoff), o, o + n, n);
    AroundFacts(s, u, o, o + n, n);
    WrittenHere(s, u, o + 8, PutU32(nameoff));
    WrittenElsewhere(s, u, o + 8, PutU32(nameoff), o, o + 4);
    WrittenElsewhere(s, u, o + 8, PutU32(nameoff), o + 4, o + 8);
    WrittenElsewhere(s, u, o + 8, PutU32(nameoff), o + 12, o + 12 + |t.value|);
    WrittenElsewhere(s, u, o + 8, PutU32(nameoff), o + 12 + |t.value|, o + n);
    PropBytes(u, o, |t.value|, nameoff);
    PropSize(p);
    OnlyWf(p);
    EncodeOne(p);
    OffOrder(us, j, j + 1, s, tail);
    Rebuilt(s, u, us, tail, j, j + 1, [p]);
    EditedIsUpdate(us, j, p);
  }

  lemma EditedIsUpdate(us: seq<Token>, j: nat, p: Token)
    requires j < |us|
    ensures Edited(us, j, j + 1, [p]) == us[j := p]
  {}

  /** A property's padding, as bytes of its block. */
  lemma PadHere(ts: seq<Token>, tail: seq<Byte>, j: nat)
    requires AllWf(ts) && j < |ts| && ts[j].Prop? && Wf(ts[j])
    ensures var s, o, t := Block(ts, tail), Off(ts, j), ts[j];
      o + 12 + Align4(|t.value|) <= |s| && s[o + 12 + |t.value|..o + 12 + Align4(|t.value|)] == t.pad
  {
    hide *;
    var s, o, t := Block(ts, tail), Off(ts, j), ts[j];
    BlockAt(ts, tail, j);
    PadLayout(t);
    Sub(s, o, Bytes(t), 12 + |t.value|, 12 + Align4(|t.value|));
  }

  lemma PadLayout(t: Token)
    requires t.Prop? && Wf(t)
    ensures |Bytes(t)| == 12 + Align4(|t.value|) && Bytes(t)[12 + |t.value|..12 + Align4(|t.value|)] == t.pad
  {
    hide PutU32, Aligned, Align4;
    assert Bytes(t) == PutU32(PROP) + PutU32(|t.value|) + PutU32(t.nameoff) + t.value + t.pad;
  }

  lemma MovedToken(t: Token, n: nat)
    ensures Moved1(t, n) == if t.Prop? then Prop((t.nameoff + n) % WORD, t.value, t.pad) else t
  {}

  /** What the next tag is, names not yet being in order. */
  method TagIn(b: Blob, o: int, ghost j: nat) returns (tag: U32, next: int)
    requires b.Layout() && AllWf(b.ts) && b.Struct() == Block(b.ts, b.tail) && j <= |b.ts| && o == Off(b.ts, j)
    ensures j < |b.ts| ==> tag == Tag(b.ts[j]) && next == Off(b.ts, j + 1)
    ensures j == |b.ts| ==> tag == END && next >= 0
    ensures o + 4 <= b.sizeStruct
  {
    if j < |b.ts| {
      NextTagAt(b.ts, b.tail, j);
      BlockAt(b.ts, b.tail, j);
    } else {
      NextTagEnd(b.ts, b.tail);
      BlockEnd(b.ts, b.tail);
    }
    hide Block, Off, DtFormat.NextTag;
    tag, next := b.NextTag(o);
  }

  lemma TagCases(t: Token)
    ensures Tag(t) != END && (Tag(t) == PROP <==> t.Prop?)
  {}

  lemma SameOffsets(ts: seq<Token>, j: nat, n: nat, k: nat)
    requires AllWf(ts) && j < |ts| && k <= |ts| && AllWf(Halfway(ts, j, n)) && AllWf(Halfway(ts, j + 1, n))
    ensures Off(Halfway(ts, j + 1, n), k) == Off(Halfway(ts, j, n), k)
  {
    var h := Halfway(ts, j, n);
    HalfwayAt(ts, j, n);
    AllWfAfter(ts, j, n);
    EditedIsUpdate(h, j, Moved1(ts[j], n));
    MovedSize(ts[j], n);
    hide Halfway, Edited;
    OffAlike(h, j, Moved1(ts[j], n), k);
  }

  lemma MovedSize(t: Token, n: nat)
    requires Wf(t)
    ensures Wf(Moved1(t, n)) && |Bytes(Moved1(t, n))| == |Bytes(t)|
  {
    if t.Prop? { PropSize(t); PropSize(Moved1(t, n)); }
  }

  /** The walk that corrects every name offset by the size of the strings. */
  method Relocate(b: Blob, ghost ts: seq<Token>) returns (nextoffset: int)
    requires b.Layout() && AllWf(ts) && b.ts == ts && b.tail == [] && b.Struct() == Block(ts, [])
    modifies b`ts, b.buf
    ensures b.Layout() && b.Front() == old(b.Front()) && b.Strings() == old(b.Strings()) && nextoffset >= 0
    ensures b.ts == Relocated(ts, b.sizeStrings) && AllWf(b.ts) && b.Struct() == Block(b.ts, [])
  {
    hide *;
    Constants();
    ghost var n, j := b.sizeStrings, 0;
    HalfwayEnds(ts, n);
    StartOff(ts);
    ghost var front, strs := b.Front(), b.Strings();
    var offset := 0;
    var tag;
    tag, nextoffset := TagIn(b, offset, 0);
    while tag != END
      invariant j <= |ts| && b.ts == Halfway(ts, j, n) && AllWf(b.ts) && |b.ts| == |ts| && b.tail == []
      invariant b.Layout() && b.Front() == front && b.Strings() == strs && b.Struct() == Block(b.ts, [])
      invariant offset == Off(b.ts, j) && (j == |ts| ==> tag == END && nextoffset >= 0)
      invariant j < |ts| ==> tag == Tag(b.ts[j]) && nextoffset == Off(b.ts, j + 1)
      decreases |ts| - j
    {
      ghost var us := b.ts;
      assert us[j := us[j]] == us;
      HalfwayAt(ts, j, n);
      MovedToken(ts[j], n);
      TagCases(ts[j]);
      AllWfAfter(ts, j, n);
      if tag == PROP {
        PropInBlock(us, [], j);
        var nameoff := b.ReadU32(offset + 8);
        nameoff := (nameoff + b.sizeStrings) % WORD;
        ghost var s := b.Struct();
        b.WriteStruct(offset + 8, PutU32(nameoff));
        NameRewritten(us, [], s, b.Struct(), j, nameoff);
      }
      SameOffsets(ts, j, n, j + 1);
      b.ts := Halfway(ts, j + 1, n);
      HalfwayLength(ts, j + 1, n);
      offset := nextoffset;
      j := j + 1;
      tag, nextoffset := TagIn(b, offset, j);
    }
    if j < |ts| { TagCases(b.ts[j]); }
  }

  lemma HalfwayLength(ts: seq<Token>, j: nat, n: nat)
    requires j <= |ts|
    ensures |Halfway(ts, j, n)| == |ts|
  {}

  lemma Constants()
    ensures WORD == 0x1_0000_0000 && BEGIN_NODE == 1 && END_NODE == 2 && PROP == 3 && NOP == 4 && END == 9
    ensures ERR_NOSPACE == 3 && ERR_BADSTATE == 7 && ERR_BADSTRUCTURE == 11
  {}

  /** The writer's buffer once the end tag is written and the names have been moved behind it. */
  lemma Closed(b: seq<Byte>, c: seq<Byte>, d: seq<Byte>, total: nat, offStruct: nat, size: nat, nstr: nat,
          ts: seq<Token>, rs: seq<(U64, U64)>)
    requires Laid(b, total, offStruct, size, nstr, ts, rs) && offStruct + size + 4 + nstr <= total
    requires Written(b, c, offStruct + size, PutU32(END)) && |d| == |c|
    requires d[..offStruct + size + 4] == c[..offStruct + size + 4]
    requires Part(d, offStruct + size + 4, nstr) == Part(c, total - nstr, nstr)
    ensures Part(d, offStruct, size + 4) == Block(ts, [])
    ensures Part(d, offStruct + size + 4, nstr) == Part(b, total - nstr, nstr)
    ensures Part(d, HEADER_SIZE, offStruct - HEADER_SIZE) == ReserveBytes(rs)
  {
    hide *;
    LaidBounds(b, total, offStruct, size, nstr, ts, rs);
    LaidParts(b, total, offStruct, size, nstr, ts, rs);
    var x := offStruct + size;
    AroundSelf(b, x, x + 4);
    AroundWritten(b, b, c, x, PutU32(END), x, x + 4, 4);
    WrittenHere(b, c, x, PutU32(END));
    PartOutside(b, c, x, 4, total - nstr, nstr);
    PartOutside(b, c, x, 4, offStruct, size);
    PartOutside(b, c, x, 4, HEADER_SIZE, offStruct - HEADER_SIZE);
    StartPart(c, d, x + 4, offStruct, size);
    StartPart(c, d, x + 4, HEADER_SIZE, offStruct - HEADER_SIZE);
    StartPart(c, d, x + 4, x, 4);
    PartSlice(c, x, 4);
    PartJoin(d, offStruct, size, 4);
    BlockClosed(ts);
  }

  lemma BlockClosed(ts: seq<Token>)
    requires AllWf(ts)
    ensures Block(ts, []) == Encode(ts) + PutU32(END)
  {}

  lemma StartPart(c: seq<Byte>, d: seq<Byte>, n: nat, x: nat, m: nat)
    requires n <= |c| == |d| && d[..n] == c[..n] && x + m <= n
    ensures Part(d, x, m) == Part(c, x, m)
  {
    Slice(c, 0, n, x, x + m);
    Slice(d, 0, n, x, x + m);
    assert c[0..n] == c[..n] && d[0..n] == d[..n];
  }

  /** Ends the tree: the finished blob says exactly what was written, in order, behind the reserve entries. */
  method Finish(w: Writer) returns (err: int, b: Blob?)
    requires w.Valid()
    modifies w, w.buf
    ensures err == if !old(w.InStruct()) then -ERR_BADSTATE
      else if w.offStruct + old(w.sizeStruct) + 4 + w.sizeStrings > old(w.totalsize) then -ERR_NOSPACE else 0
    ensures err == 0 <==> b != null
    ensures err != 0 ==> w.Valid() && w.Line() == old(w.Line()) && w.reserved == old(w.reserved)
    ensures b != null ==> fresh(b) && b.buf == w.buf && b.Valid() && b.Line() == old(w.Line()) && w.complete
    ensures b != null ==>
      HEADER_SIZE <= b.offStruct
      && Part(b.Front(), HEADER_SIZE, b.offStruct - HEADER_SIZE) == ReserveBytes(old(w.reserved))
    ensures b != null ==> Ended(old(w.reserved)) && b.totalsize == b.offStrings + b.sizeStrings
  {
    hide *;
    w.Bounds();
    w.Codes();
    if !w.InStruct() { return -ERR_BADSTATE, null; }
    ghost var was, size, names, line, rs, ts := w.buf[..], w.sizeStruct, w.Names(), w.Line(), w.reserved, w.ts;
    var ok, end := w.GrabSpace(4);
    if !ok { return -ERR_NOSPACE, null; }
    w.Write(w.offStruct + end, PutU32(END));
    ghost var c := w.buf[..];
    var oldstroffset, newstroffset := w.totalsize - w.sizeStrings, w.offStruct + w.sizeStruct;
    MoveNames(w.buf, oldstroffset, newstroffset, w.sizeStrings);
    Closed(was, c, w.buf[..], w.totalsize, w.offStruct, size, w.sizeStrings, ts, rs);
    var blob := Opened(w.buf, w.totalsize, w.offStruct, w.sizeStruct, w.sizeStrings, ts, names, rs);
    SaidIs(ts, names);
    w.complete := true;
    return 0, blob;
  }

  /** The finished blob over a closed buffer, its names relocated and its size cut to what is used. */
  method Opened(buf: array<Byte>, total: nat, offStruct: nat, sizeStruct: nat, sizeStrings: nat, ghost ts: seq<Token>,
          ghost names: seq<Byte>, ghost rs: seq<(U64, U64)>)
    returns (b: Blob)
    requires HEADER_SIZE <= offStruct && offStruct + sizeStruct + sizeStrings <= total <= buf.Length
      && total < 0x7fff_ffff
    requires AllWf(ts) && NamesBack(ts, names) && |names| == sizeStrings
    requires Part(buf[..], offStruct, sizeStruct) == Block(ts, [])
      && Part(buf[..], offStruct + sizeStruct, sizeStrings) == names
    requires Part(buf[..], HEADER_SIZE, offStruct - HEADER_SIZE) == ReserveBytes(rs)
    modifies buf
    ensures fresh(b) && b.buf == buf && b.Valid() && AllWf(Relocated(ts, |names|))
      && NamesOk(Relocated(ts, |names|), names)
    ensures b.Line() == Events(Relocated(ts, |names|), names)
    ensures HEADER_SIZE <= b.offStruct && Part(b.Front(), HEADER_SIZE, b.offStruct - HEADER_SIZE) == ReserveBytes(rs)
    ensures b.totalsize == b.offStrings + b.sizeStrings
  {
    hide *;
    b := new Blob(buf);
    b.totalsize, b.offStruct, b.sizeStruct, b.offStrings, b.sizeStrings := total, offStruct, sizeStruct,
      offStruct + sizeStruct, sizeStrings;
    b.ts, b.tail := ts, [];
    LayoutIs(b);
    Views(b);
    PartOfPart(b.buf[..], b.offStruct, HEADER_SIZE);
    var nextoffset := Relocate(b, ts);
    NamesRelocated(ts, names);
    Views(b);
    b.totalsize := b.offStrings + sizeStrings;
    LayoutIs(b);
    Views(b);
    NowValid(b);
  }

  lemma LayoutIs(b: Blob)
    requires b.offStruct + b.sizeStruct <= b.offStrings && b.offStrings + b.sizeStrings <= b.totalsize <= b.buf.Length
      && b.totalsize < 0x7fff_ffff
    ensures b.Layout()
  {}

  lemma Views(b: Blob)
    requires b.Layout()
    ensures b.offStruct + b.sizeStruct <= b.offStrings && b.offStrings + b.sizeStrings <= b.totalsize <= b.buf.Length
    ensures b.Front() == Part(b.buf[..], 0, b.offStruct)
    ensures b.Struct() == Part(b.buf[..], b.offStruct, b.sizeStruct)
    ensures b.Strings() == Part(b.buf[..], b.offStrings, b.sizeStrings)
  {}

  lemma PartOfPart(b: seq<Byte>, x: nat, y: nat)
    requires y <= x <= |b|
    ensures Part(Part(b, 0, x), y, x - y) == Part(b, y, x - y)
  {}

  lemma SaidIs(ts: seq<Token>, strs: seq<Byte>)
    requires NamesBack(ts, strs) && AllWf(ts) && |strs| < 0x8000_0000 && AllWf(Relocated(ts, |strs|))
      && NamesOk(Relocated(ts, |strs|), strs)
    ensures Said(ts, strs) == Events(Relocated(ts, |strs|), strs)
  {}

  method MoveNames(buf: array<Byte>, from: nat, to: nat, n: nat)
    requires to <= from && from + n <= buf.Length
    modifies buf
    ensures buf[..][..to] == old(buf[..])[..to] && Part(buf[..], to, n) == Part(old(buf[..]), from, n)
  {
    forall i | 0 <= i < n {
      buf[to + i] := buf[from + i];
    }
  }
}
