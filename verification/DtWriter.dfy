/** The sequential writer: a tree written call by call, names kept at the far end of the buffer until the end. */
module DtWriter {
  import opened DtFormat
  import opened DtTree
  import opened DtEvents
  import opened DtBlob
  import opened DtEdit
  import opened DtNodes

  const ERR_BADSTATE: int := 7
  const HEADER_SIZE: nat := 48

  type U64 = x: int | 0 <= x < 0x1_0000_0000_0000_0000

  // ---------- names counted from the end of the buffer ----------

  /** The token with its name offset moved on by the size of the strings. */
  ghost function Moved1(t: Token, n: nat): Token {
    if t.Prop? then Prop((t.nameoff + n) % WORD, t.value, t.pad) else t
  }

  ghost function Relocated(ts: seq<Token>, n: nat): (us: seq<Token>)
    ensures |us| == |ts| && forall i :: 0 <= i < |ts| ==> us[i] == Moved1(ts[i], n)
  {
    seq(|ts|, i requires 0 <= i < |ts| => Moved1(ts[i], n))
  }

  /** Every name lies in the strings, counted back from their end. */
  ghost predicate NamesBack(ts: seq<Token>, strs: seq<Byte>) {
    forall t :: t in ts && t.Prop? ==> NameBack(t.nameoff, strs)
  }

  ghost predicate NameBack(nameoff: U32, strs: seq<Byte>) {
    WORD - |strs| <= nameoff && HasString(strs, nameoff + |strs| - WORD)
  }

  lemma NamesRelocated(ts: seq<Token>, strs: seq<Byte>)
    requires NamesBack(ts, strs) && AllWf(ts) && |strs| < 0x8000_0000
    ensures AllWf(Relocated(ts, |strs|)) && NamesOk(Relocated(ts, |strs|), strs)
  {
    var us := Relocated(ts, |strs|);
    forall t | t in us
      ensures Wf(t) && (t.Prop? ==> HasString(strs, t.nameoff))
    {
      var i :| 0 <= i < |us| && us[i] == t;
      assert ts[i] in ts;
      MovedOk(ts[i], strs);
      hide *;
    }
  }

  lemma MovedOk(t: Token, strs: seq<Byte>)
    requires Wf(t) && (t.Prop? ==> NameBack(t.nameoff, strs)) && |strs| < 0x8000_0000
    ensures Wf(Moved1(t, |strs|)) && (Moved1(t, |strs|).Prop? ==> HasString(strs, Moved1(t, |strs|).nameoff))
  {
    if t.Prop? { WrapsOnce(t.nameoff, |strs|); }
    hide HasString, Align4;
  }

  lemma WrapsOnce(nameoff: U32, n: nat)
    requires WORD - n <= nameoff && n < WORD
    ensures (nameoff + n) % WORD == nameoff + n - WORD
  {}

  /** What the calls have said so far. */
  ghost function Said(ts: seq<Token>, strs: seq<Byte>): seq<Event>
    requires NamesBack(ts, strs) && AllWf(ts) && |strs| < 0x8000_0000
  {
    NamesRelocated(ts, strs);
    Events(Relocated(ts, |strs|), strs)
  }

  /** A string put in front of the others does not change names counted from the end. */
  lemma LaterString(front: seq<Byte>, strs: seq<Byte>, o: nat)
    requires HasString(strs, o)
    ensures HasString(front + strs, |front| + o) && StringAt(front + strs, |front| + o) == StringAt(strs, o)
  {
    var s, n := front + strs, NulAt(strs, o);
    assert s[|front| + o..|front| + n] == strs[o..n];
    NulFound(s, |front| + o, |front| + n);
  }

  lemma {:induction false} SaidLater(ts: seq<Token>, front: seq<Byte>, strs: seq<Byte>)
    requires NamesBack(ts, strs) && AllWf(ts) && |front + strs| < 0x8000_0000
    ensures NamesBack(ts, front + strs) && Said(ts, front + strs) == Said(ts, strs)
  {
    NamesLater(ts, front, strs);
    if ts == [] {
      assert Relocated(ts, |strs|) == [] && Relocated(ts, |front + strs|) == [];
    } else {
      hide *;
      SaidHead(ts, strs);
      SaidHead(ts, front + strs);
      SaidLater(ts[1..], front, strs);
      FirstBack(ts, strs);
      SaidByLater(ts[0], front, strs);
    }
  }

  lemma FirstBack(ts: seq<Token>, strs: seq<Byte>)
    requires ts != [] && NamesBack(ts, strs)
    ensures ts[0].Prop? ==> NameBack(ts[0].nameoff, strs)
  {}

  lemma NamesLater(ts: seq<Token>, front: seq<Byte>, strs: seq<Byte>)
    requires NamesBack(ts, strs)
    ensures NamesBack(ts, front + strs)
  {
    forall t | t in ts && t.Prop?
      ensures NameBack(t.nameoff, front + strs)
    {
      SaidByLater(t, front, strs);
    }
  }

  lemma SaidByLater(t: Token, front: seq<Byte>, strs: seq<Byte>)
    requires t.Prop? ==> NameBack(t.nameoff, strs)
    ensures (t.Prop? ==> NameBack(t.nameoff, front + strs)) && SaidBy(t, front + strs) == SaidBy(t, strs)
  {
    if t.Prop? {
      var o := t.nameoff + |strs| - WORD;
      LaterString(front, strs, o);
      assert t.nameoff + |front + strs| - WORD == |front| + o;
    }
  }

  ghost function SaidBy(t: Token, strs: seq<Byte>): seq<Event>
    requires t.Prop? ==> NameBack(t.nameoff, strs)
  {
    match t
    case Nop => []
    case BeginNode(name, _) => [Enter(name)]
    case EndNode => [Leave]
    case Prop(nameoff, value, _) => [Attr(Property(StringAt(strs, nameoff + |strs| - WORD), value))]
  }

  lemma SaidHead(ts: seq<Token>, strs: seq<Byte>)
    requires ts != [] && NamesBack(ts, strs) && AllWf(ts) && |strs| < 0x8000_0000
    ensures ts[0] in ts && NamesBack(ts[1..], strs) && AllWf(ts[1..])
    ensures Said(ts, strs) == SaidBy(ts[0], strs) + Said(ts[1..], strs)
  {
    var us := Relocated(ts, |strs|);
    NamesRelocated(ts, strs);
    NamesRelocated(ts[1..], strs);
    assert us[1..] == Relocated(ts[1..], |strs|);
    if ts[0].Prop? { assert NameBack(ts[0].nameoff, strs); WrapsOnce(ts[0].nameoff, |strs|); }
    assert us[0] == Moved1(ts[0], |strs|);
  }

  lemma {:induction false} SaidMore(ts: seq<Token>, t: Token, strs: seq<Byte>)
    requires NamesBack(ts, strs) && AllWf(ts) && |strs| < 0x8000_0000 && Wf(t)
      && (t.Prop? ==> NameBack(t.nameoff, strs))
    ensures NamesBack(ts + [t], strs) && AllWf(ts + [t]) && Said(ts + [t], strs) == Said(ts, strs) + SaidBy(t, strs)
  {
    if ts == [] {
      assert ts + [t] == [t] && [t][1..] == [];
      SaidHead([t], strs);
      assert Relocated([], |strs|) == [];
    } else {
      assert (ts + [t])[1..] == ts[1..] + [t];
      SaidMore(ts[1..], t, strs);
      SaidHead(ts, strs);
      SaidHead(ts + [t], strs);
    }
  }

  // ---------- reserve entries ----------

  function PutU64(v: U64): seq<Byte> {
    PutU32(v / WORD) + PutU32(v % WORD)
  }

  ghost function ReserveBytes(rs: seq<(U64, U64)>): seq<Byte> {
    if rs == [] then [] else ReserveBytes(rs[..|rs| - 1]) + (PutU64(rs[|rs| - 1].0) + PutU64(rs[|rs| - 1].1))
  }

  // ---------- the buffer of an unfinished tree ----------

  /** Reserve entries from the front, then the tokens; the names sit at the far end. */
  ghost predicate Laid(b: seq<Byte>, total: nat, offStruct: nat, size: nat, nstr: nat, ts: seq<Token>,
          rs: seq<(U64, U64)>)
  {
    && HEADER_SIZE <= offStruct && offStruct + size + nstr <= total <= |b| && total < 0x7fff_ffff
    && AllWf(ts) && Part(b, offStruct, size) == Encode(ts)
    && NamesBack(ts, Part(b, total - nstr, nstr))
    && Part(b, HEADER_SIZE, offStruct - HEADER_SIZE) == ReserveBytes(rs)
  }

  lemma LaidBounds(b: seq<Byte>, total: nat, offStruct: nat, size: nat, nstr: nat, ts: seq<Token>, rs: seq<(U64, U64)>)
    requires Laid(b, total, offStruct, size, nstr, ts, rs)
    ensures HEADER_SIZE <= offStruct && offStruct + size + nstr <= total <= |b| && total < 0x7fff_ffff && AllWf(ts)
    ensures NamesBack(ts, Part(b, total - nstr, nstr)) && |Part(b, total - nstr, nstr)| == nstr
  {}

  /** A change inside one stretch leaves the parts outside of it alone. */
  lemma PartOutside(b: seq<Byte>, c: seq<Byte>, x: nat, n: nat, y: nat, m: nat)
    requires Around(b, c, x, x + n, n) && |b| == |c| && y + m <= |b| && (y + m <= x || x + n <= y)
    ensures Part(c, y, m) == Part(b, y, m)
  {
    AroundFacts(b, c, x, x + n, n);
    if y + m <= x {
      Slice(b, 0, x, y, y + m);
      Slice(c, 0, x, y, y + m);
      assert b[0..x] == b[..x] && c[0..x] == c[..x];
    } else {
      Slice(b, x + n, |b|, y - (x + n), y - (x + n) + m);
      Slice(c, x + n, |c|, y - (x + n), y - (x + n) + m);
      assert b[x + n..|b|] == b[x + n..] && c[x + n..|c|] == c[x + n..];
    }
  }

  lemma PartJoin(b: seq<Byte>, x: nat, n: nat, m: nat)
    requires x + n + m <= |b|
    ensures Part(b, x, n + m) == Part(b, x, n) + Part(b, x + n, m)
  {}

  /** One more token behind the others. */
  lemma LaidToken(b: seq<Byte>, c: seq<Byte>, total: nat, offStruct: nat, size: nat, nstr: nat, ts: seq<Token>,
          rs: seq<(U64, U64)>, t: Token, n: nat)
    requires Laid(b, total, offStruct, size, nstr, ts, rs) && Wf(t) && n == |Bytes(t)| && |b| == |c|
    requires offStruct + size + n + nstr <= total
    requires t.Prop? ==> NameBack(t.nameoff, Part(b, total - nstr, nstr))
    requires Around(b, c, offStruct + size, offStruct + size + n, n) && Part(c, offStruct + size, n) == Bytes(t)
    ensures Laid(c, total, offStruct, size + n, nstr, ts + [t], rs)
    ensures Part(c, total - nstr, nstr) == Part(b, total - nstr, nstr)
    ensures Said(ts + [t], Part(c, total - nstr, nstr)) ==
      Said(ts, Part(b, total - nstr, nstr)) + SaidBy(t, Part(b, total - nstr, nstr))
  {
    hide *;
    LaidBounds(b, total, offStruct, size, nstr, ts, rs);
    LaidParts(b, total, offStruct, size, nstr, ts, rs);
    SaidMore(ts, t, Part(b, total - nstr, nstr));
    PartOutside(b, c, offStruct + size, n, total - nstr, nstr);
    PartOutside(b, c, offStruct + size, n, HEADER_SIZE, offStruct - HEADER_SIZE);
    PartOutside(b, c, offStruct + size, n, offStruct, size);
    PartJoin(c, offStruct, size, n);
    OnlyWf(t);
    EncodeConcat(ts, [t]);
    EncodeOne(t);
    LaidIs(c, total, offStruct, size + n, nstr, ts + [t], rs);
  }

  lemma LaidIs(b: seq<Byte>, total: nat, offStruct: nat, size: nat, nstr: nat, ts: seq<Token>, rs: seq<(U64, U64)>)
    requires HEADER_SIZE <= offStruct && offStruct + size + nstr <= total <= |b| && total < 0x7fff_ffff
    requires AllWf(ts) && Part(b, offStruct, size) == Encode(ts) && NamesBack(ts, Part(b, total - nstr, nstr))
    requires Part(b, HEADER_SIZE, offStruct - HEADER_SIZE) == ReserveBytes(rs)
    ensures Laid(b, total, offStruct, size, nstr, ts, rs)
  {}

  lemma LaidParts(b: seq<Byte>, total: nat, offStruct: nat, size: nat, nstr: nat, ts: seq<Token>, rs: seq<(U64, U64)>)
    requires Laid(b, total, offStruct, size, nstr, ts, rs)
    ensures offStruct + size <= |b| && AllWf(ts) && Part(b, offStruct, size) == Encode(ts)
    ensures Part(b, HEADER_SIZE, offStruct - HEADER_SIZE) == ReserveBytes(rs)
  {}

  /** One more name in front of the others at the far end. */
  lemma LaidString(b: seq<Byte>, c: seq<Byte>, total: nat, offStruct: nat, size: nat, nstr: nat, ts: seq<Token>,
          rs: seq<(U64, U64)>, name: seq<Byte>, n: nat)
    requires Laid(b, total, offStruct, size, nstr, ts, rs) && 0 !in name && n == |name| + 1 && |b| == |c|
    requires offStruct + size + nstr + n <= total
    requires Around(b, c, total - nstr - n, total - nstr, n) && Part(c, total - nstr - n, n) == name + [0]
    ensures Laid(c, total, offStruct, size, nstr + n, ts, rs)
    ensures Said(ts, Part(c, total - (nstr + n), nstr + n)) == Said(ts, Part(b, total - nstr, nstr))
    ensures Part(c, total - (nstr + n), nstr + n) == name + [0] + Part(b, total - nstr, nstr)
  {
    hide *;
    LaidBounds(b, total, offStruct, size, nstr, ts, rs);
    LaidParts(b, total, offStruct, size, nstr, ts, rs);
    var x := total - nstr - n;
    PartOutside(b, c, x, n, total - nstr, nstr);
    PartOutside(b, c, x, n, HEADER_SIZE, offStruct - HEADER_SIZE);
    PartOutside(b, c, x, n, offStruct, size);
    PartJoin(c, x, n, nstr);
    assert total - (nstr + n) == x && n + nstr == nstr + n;
    SaidLater(ts, name + [0], Part(b, total - nstr, nstr));
    NamesLater(ts, name + [0], Part(b, total - nstr, nstr));
    LaidIs(c, total, offStruct, size, nstr + n, ts, rs);
  }

  /** The name just added is found at its offset from the end. */
  lemma AddedName(name: seq<Byte>, strs: seq<Byte>)
    requires 0 !in name && |name| + 1 + |strs| < 0x8000_0000
    ensures var s := name + [0] + strs; var o := WORD - |s|;
      NameBack(o, s) && StringAt(s, o + |s| - WORD) == name
  {
    var s := name + [0] + strs;
    assert s[0..|name|] == name;
    NulFound(s, 0, |name|);
  }

  /** One more reserve entry, while there are no tokens yet. */
  lemma LaidReserve(b: seq<Byte>, c: seq<Byte>, total: nat, offStruct: nat, rs: seq<(U64, U64)>, r: (U64, U64))
    requires Laid(b, total, offStruct, 0, 0, [], rs) && |b| == |c| && offStruct + 16 <= total
    requires Around(b, c, offStruct, offStruct + 16, 16) && Part(c, offStruct, 16) == PutU64(r.0) + PutU64(r.1)
    ensures Laid(c, total, offStruct + 16, 0, 0, [], rs + [r])
  {
    LaidParts(b, total, offStruct, 0, 0, [], rs);
    PartOutside(b, c, offStruct, 16, HEADER_SIZE, offStruct - HEADER_SIZE);
    PartJoin(c, HEADER_SIZE, offStruct - HEADER_SIZE, 16);
    assert (rs + [r])[..|rs|] == rs;
    assert Part(c, offStruct + 16, 0) == [] && Part(c, total, 0) == [];
    hide PutU64, Around;
  }

  // ---------- room for a name ----------

  /** The test for room as the call makes it, with the difference taken modulo 2^32. */
  predicate RoomTest(total: nat, offset: nat, top: nat) {
    !((total - offset) % WORD < top)
  }

  /** What fits passes the test; what passes fits exactly when the strings are not longer than the whole blob. */
  lemma RoomTestWraps(total: U32, offset: U32, top: nat)
    ensures top + offset <= total ==> RoomTest(total, offset, top)
    ensures RoomTest(total, offset, top) ==> (top + offset <= total <==> offset <= total)
  {}

  /** A name too long for the blob passes, unless the wrapped difference happens to end below the structure. */
  lemma LongNamesPass(total: U32, offset: U32, top: nat)
    requires offset > total
    ensures RoomTest(total, offset, top) <==> total + WORD - offset >= top
    ensures RoomTest(64, 65, 64) && !(64 + 65 <= 64)
  {}

  /** The last entry is the one that ends the map. */
  ghost predicate Ended(rs: seq<(U64, U64)>) {
    rs != [] && rs[|rs| - 1] == (0, 0)
  }

  class Writer {
    const buf: array<Byte>
    var complete: bool
    var dedup: bool
    var totalsize: nat
    var offStruct: nat
    var sizeStruct: nat
    var offStrings: nat
    var sizeStrings: nat
    ghost var ts: seq<Token>
    ghost var reserved: seq<(U64, U64)>

    constructor (b: array<Byte>)
      ensures buf == b
    {
      buf := b;
    }

    ghost predicate Valid()
      reads this, buf
    {
      && Laid(buf[..], totalsize, offStruct, sizeStruct, sizeStrings, ts, reserved)
      && (offStrings == 0 || offStrings == totalsize)
      && (offStrings == 0 ==> sizeStruct == 0 && sizeStrings == 0 && ts == [])
      && (offStrings != 0 ==> Ended(reserved))
    }

    /** The names written so far. */
    ghost function Names(): seq<Byte>
      reads this, buf
      requires Valid()
    {
      Part(buf[..], totalsize - sizeStrings, sizeStrings)
    }

    /** What was written so far. */
    ghost function Line(): seq<Event>
      reads this, buf
      requires Valid()
    {
      Said(ts, Names())
    }

    /** Reserve entries may be added until the map is finished, and nodes and properties only after that. */
    predicate InMemrsv()
      reads this`complete, this`offStrings
    {
      !complete && offStrings == 0
    }

    predicate InStruct()
      reads this`complete, this`offStrings, this`totalsize
    {
      !complete && offStrings == totalsize
    }

    method Write(p: nat, data: seq<Byte>)
      requires p + |data| <= buf.Length
      modifies buf
      ensures Written(old(buf[..]), buf[..], p, data)
    {
      forall i | 0 <= i < |data| {
        buf[p + i] := data[i];
      }
    }

    /** Takes bytes behind the tokens, if the names leave room. */
    method GrabSpace(len: nat) returns (ok: bool, offset: nat)
      requires offStruct + sizeStruct + sizeStrings <= totalsize
      modifies this`sizeStruct
      ensures ok <==> offStruct + old(sizeStruct) + len + sizeStrings <= totalsize
      ensures sizeStruct == if ok then old(sizeStruct) + len else old(sizeStruct)
      ensures offset == old(sizeStruct)
    {
      offset := sizeStruct;
      var spaceleft := totalsize - offStruct - sizeStrings;
      if offset + len > spaceleft { return false, offset; }
      sizeStruct := offset + len;
      return true, offset;
    }

    /** The two big-endian words of a reserve entry. */
    method WriteEntry(offset: nat, addr: U64, size: U64)
      requires offset + 16 <= buf.Length
      modifies buf
      ensures Around(old(buf[..]), buf[..], offset, offset + 16, 16)
      ensures Part(buf[..], offset, 16) == PutU64(addr) + PutU64(size)
    {
      hide *;
      ghost var b := buf[..];
      AroundSelf(b, offset, offset + 16);
      EightBytes(addr);
      EightBytes(size);
      Write(offset, PutU64(addr));
      ghost var c := buf[..];
      AroundWritten(b, b, c, offset, PutU64(addr), offset, offset + 16, 16);
      Write(offset + 8, PutU64(size));
      ghost var d := buf[..];
      AroundWritten(b, c, d, offset + 8, PutU64(size), offset, offset + 16, 16);
      WrittenHere(b, c, offset, PutU64(addr));
      WrittenElsewhere(c, d, offset + 8, PutU64(size), offset, offset + 8);
      WrittenHere(c, d, offset + 8, PutU64(size));
      PartTwo(d, offset, 8, 8);
    }

    method AddReservemapEntry(addr: U64, size: U64) returns (err: int)
      requires Valid()
      modifies this`offStruct, this`reserved, buf
      ensures Valid() && Line() == old(Line())
      ensures err == if !old(InMemrsv()) then -ERR_BADSTATE else if old(offStruct) + 16 > totalsize then -ERR_NOSPACE
        else 0
      ensures reserved == if err == 0 then old(reserved) + [(addr, size)] else old(reserved)
    {
      hide *;
      Bounds();
      Codes();
      if !InMemrsv() { return -ERR_BADSTATE; }
      NothingYet();
      ghost var b, x := buf[..], offStruct;
      var offset := offStruct;
      if offset + 16 > totalsize { return -ERR_NOSPACE; }
      WriteEntry(offset, addr, size);
      ghost var d := buf[..];
      LaidReserve(b, d, totalsize, x, reserved, (addr, size));
      offStruct := offset + 16;
      reserved := reserved + [(addr, size)];
      NothingYet();
      return 0;
    }

    method FinishReservemap() returns (err: int)
      requires Valid()
      modifies this`offStruct, this`offStrings, this`reserved, buf
      ensures Valid() && Line() == old(Line())
      ensures err == if !old(InMemrsv()) then -ERR_BADSTATE else if old(offStruct) + 16 > totalsize then -ERR_NOSPACE
        else 0
      ensures err == 0 ==> InStruct() && reserved == old(reserved) + [(0, 0)]
      ensures err != 0 ==> offStrings == old(offStrings) && reserved == old(reserved)
    {
      err := AddReservemapEntry(0, 0);
      if err != 0 { return; }
      offStrings := totalsize;
    }

    /** The facts every call starts from. */
    lemma Bounds()
      requires Valid()
      ensures Laid(buf[..], totalsize, offStruct, sizeStruct, sizeStrings, ts, reserved)
      ensures HEADER_SIZE <= offStruct && offStruct + sizeStruct + sizeStrings <= totalsize <= buf.Length
        && totalsize < 0x7fff_ffff
      ensures AllWf(ts) && NamesBack(ts, Names()) && |Names()| == sizeStrings
        && Names() == Part(buf[..], totalsize - sizeStrings, sizeStrings)
      ensures Line() == Said(ts, Names())
      ensures InMemrsv() ==> sizeStruct == 0 && sizeStrings == 0 && ts == [] && offStrings == 0
      ensures InStruct() ==> offStrings == totalsize && Ended(reserved)
    {}

    lemma Codes()
      ensures WORD == 0x1_0000_0000 && ERR_BADSTATE == 7 && ERR_NOSPACE == 3 && HEADER_SIZE == 48
      ensures BEGIN_NODE == 1 && END_NODE == 2 && PROP == 3 && NOP == 4 && END == 9
    {}

    lemma NothingYet()
      requires Laid(buf[..], totalsize, offStruct, 0, 0, [], reserved) && sizeStruct == sizeStrings == 0 && ts == []
        && offStrings == 0
      ensures Valid() && Line() == []
    {
      assert Relocated([], 0) == [];
    }

    /** The writer is in order with one more token, and says one event more. */
    lemma Grown(strs: seq<Byte>, es: seq<Event>)
      requires Laid(buf[..], totalsize, offStruct, sizeStruct, sizeStrings, ts, reserved) && offStrings == totalsize
        && Ended(reserved)
      requires totalsize - sizeStrings >= 0 && totalsize <= buf.Length
        && Part(buf[..], totalsize - sizeStrings, sizeStrings) == strs
      requires AllWf(ts) && |strs| < 0x8000_0000 && NamesBack(ts, strs) && Said(ts, strs) == es
      ensures Valid() && Line() == es
    {
      hide *;
      LaidBounds(buf[..], totalsize, offStruct, sizeStruct, sizeStrings, ts, reserved);
      Codes();
      InOrder();
      SaidSoFar();
    }

    lemma InOrder()
      requires Laid(buf[..], totalsize, offStruct, sizeStruct, sizeStrings, ts, reserved) && offStrings == totalsize
        && totalsize > 0 && Ended(reserved)
      ensures Valid()
    {}

    lemma SaidSoFar()
      requires Valid()
      ensures AllWf(ts) && sizeStrings <= totalsize <= buf.Length
        && Names() == Part(buf[..], totalsize - sizeStrings, sizeStrings)
      ensures NamesBack(ts, Names()) && |Names()| < 0x8000_0000 && Line() == Said(ts, Names())
    {}

    method BeginNode(name: seq<Byte>) returns (err: int)
      requires Valid() && 0 !in name
      modifies this`sizeStruct, this`ts, buf
      ensures Valid()
      ensures err == if !old(InStruct()) then -ERR_BADSTATE
        else if offStruct + old(sizeStruct) + 4 + Align4(|name| + 1) + sizeStrings > totalsize then -ERR_NOSPACE else 0
      ensures Line() == if err == 0 then old(Line()) + [Enter(name)] else old(Line())
    {
      hide *;
      Bounds();
      Codes();
      if !InStruct() { return -ERR_BADSTATE; }
      ghost var b, strs, es := buf[..], Names(), Line();
      var namelen := |name| + 1;
      var ok, nh := GrabSpace(4 + Align4(namelen));
      if !ok { return -ERR_NOSPACE; }
      WriteBegin(offStruct + nh, name);
      ghost var t := LaidBegin(b, buf[..], totalsize, offStruct, nh, sizeStrings, ts, reserved, name);
      ts := ts + [t];
      LaidBounds(buf[..], totalsize, offStruct, sizeStruct, sizeStrings, ts, reserved);
      Grown(strs, es + [Enter(name)]);
      return 0;
    }

    method WriteBegin(p: nat, name: seq<Byte>)
      requires p + 4 + Align4(|name| + 1) <= buf.Length
      modifies buf
      ensures Around(old(buf[..]), buf[..], p, p + 4 + Align4(|name| + 1), 4 + Align4(|name| + 1))
      ensures buf[..][p..p + 4] == PutU32(BEGIN_NODE) && buf[..][p + 4..p + 4 + (|name| + 1)] == name + [0]
    {
      hide *;
      ghost var b, n := buf[..], 4 + Align4(|name| + 1);
      AroundSelf(b, p, p + n);
      Write(p, PutU32(BEGIN_NODE));
      ghost var c := buf[..];
      Write(p + 4, name + [0]);
      ghost var d := buf[..];
      AroundWritten(b, b, c, p, PutU32(BEGIN_NODE), p, p + n, n);
      AroundWritten(b, c, d, p + 4, name + [0], p, p + n, n);
      WrittenHere(b, c, p, PutU32(BEGIN_NODE));
      WrittenHere(c, d, p + 4, name + [0]);
      WrittenElsewhere(c, d, p + 4, name + [0], p, p + 4);
    }

    method EndNode() returns (err: int)
      requires Valid()
      modifies this`sizeStruct, this`ts, buf
      ensures Valid()
      ensures err == if !old(InStruct()) then -ERR_BADSTATE
        else if offStruct + old(sizeStruct) + 4 + sizeStrings > totalsize then -ERR_NOSPACE else 0
      ensures Line() == if err == 0 then old(Line()) + [Leave] else old(Line())
    {
      hide *;
      Bounds();
      Codes();
      if !InStruct() { return -ERR_BADSTATE; }
      ghost var b, strs, es := buf[..], Names(), Line();
      var ok, en := GrabSpace(4);
      if !ok { return -ERR_NOSPACE; }
      WriteEnd(offStruct + en);
      LaidEnd(b, buf[..], totalsize, offStruct, en, sizeStrings, ts, reserved);
      ts := ts + [Token.EndNode];
      LaidBounds(buf[..], totalsize, offStruct, sizeStruct, sizeStrings, ts, reserved);
      Grown(strs, es + [Leave]);
      return 0;
    }

    method WriteEnd(p: nat)
      requires p + 4 <= buf.Length
      modifies buf
      ensures Around(old(buf[..]), buf[..], p, p + 4, 4) && buf[..][p..p + 4] == PutU32(END_NODE)
    {
      hide *;
      EndBytes();
      ghost var b := buf[..];
      AroundSelf(b, p, p + 4);
      Write(p, PutU32(END_NODE));
      AroundWritten(b, b, buf[..], p, PutU32(END_NODE), p, p + 4, 4);
      WrittenHere(b, buf[..], p, PutU32(END_NODE));
    }

    // ---------- names and properties ----------

    /** Adds a name in front of the others; its offset is counted back from the end, and zero means no room. */
    method AddString(s: seq<Byte>) returns (r: int)
      requires Valid() && InStruct() && 0 !in s && sizeStrings + |s| + 1 <= totalsize
      modifies this`sizeStrings, buf
      ensures Valid() && Line() == old(Line()) && -0x8000_0000 < r <= 0
      ensures r == 0 <==> offStruct + sizeStruct + old(sizeStrings) + |s| + 1 > totalsize
      ensures r == 0 ==> sizeStrings == old(sizeStrings) && Names() == old(Names())
      ensures r != 0 ==> Names() == s + [0] + old(Names()) && r == 0 - sizeStrings
      ensures r != 0 ==> NameBack(r + WORD, Names()) && StringAt(Names(), r + |Names()|) == s
    {
      hide *;
      Bounds();
      Codes();
      ghost var b, strs, n := buf[..], Names(), sizeStrings;
      var len := |s| + 1;
      var offset := sizeStrings + len;
      var structTop := offStruct + sizeStruct;
      NoWrap(totalsize, offset, structTop);
      if !RoomTest(totalsize, offset, structTop) { return 0; }
      ghost var x := totalsize - n - len;
      AroundSelf(b, x, x + len);
      Write(totalsize - offset, s + [0]);
      ghost var c := buf[..];
      AroundWritten(b, b, c, x, s + [0], x, x + len, len);
      WrittenHere(b, c, x, s + [0]);
      PartSlice(c, x, len);
      LaidString(b, c, totalsize, offStruct, sizeStruct, n, ts, reserved, s, len);
      AddedName(s, strs);
      NamesLater(ts, s + [0], strs);
      sizeStrings := sizeStrings + len;
      Grown(s + [0] + strs, Said(ts, strs));
      SaidSoFar();
      return 0 - offset;
    }

    lemma NoWrap(total: nat, offset: nat, top: nat)
      requires offset <= total < 0x7fff_ffff
      ensures RoomTest(total, offset, top) <==> top + offset <= total
    {}

    /** Looks for a zero-terminated copy of the name among those written. */
    method FindName(s: seq<Byte>) returns (found: bool, o: nat)
      requires Valid() && 0 !in s
      ensures found <==> Listed(Names(), s)
      ensures found ==> o < sizeStrings && HasString(Names(), o) && StringAt(Names(), o) == s
    {
      hide *;
      Bounds();
      ghost var strs := Names();
      var len := |s| + 1;
      o := 0;
      while o + len <= sizeStrings
        invariant forall i :: 0 <= i < o ==> !NameHere(strs, i, s)
      {
        var p := buf[totalsize - sizeStrings + o..totalsize - sizeStrings + o + len];
        NameThere(buf[..], totalsize - sizeStrings, sizeStrings, o, s);
        if p == s + [0] {
          NameFound(buf[..], totalsize - sizeStrings, sizeStrings, o, s);
          return true, o;
        }
        o := o + 1;
      }
      NotListed(strs, s, o);
      return false, o;
    }

    /** The offset of a name counted back from the end, zero if it is new and there is no room. */
    method FindAddString(s: seq<Byte>) returns (r: int, added: bool)
      requires Valid() && InStruct() && 0 !in s && (!Listed(Names(), s) ==> sizeStrings + |s| + 1 <= totalsize)
      modifies this`sizeStrings, buf
      ensures Valid() && Line() == old(Line()) && -0x8000_0000 < r <= 0
      ensures r == 0 ==> sizeStrings == old(sizeStrings) && Names() == old(Names())
      ensures r == 0 <==> !Listed(old(Names()), s) && offStruct + sizeStruct + old(sizeStrings) + |s| + 1 > totalsize
      ensures added <==> !Listed(old(Names()), s)
      ensures r != 0 ==> NameBack(r + WORD, Names()) && StringAt(Names(), r + |Names()|) == s
      ensures r != 0 ==> Names() == if added then s + [0] + old(Names()) else old(Names())
    {
      hide *;
      Bounds();
      Codes();
      added := false;
      var found, o := FindName(s);
      if found {
        FoundBack(Names(), o);
        return o - sizeStrings, false;
      }
      added := true;
      r := AddString(s);
    }

    /** Only for undoing: forgets the name added last. */
    method DelLastString(s: seq<Byte>, ghost strs: seq<Byte>, ghost es: seq<Event>)
      requires Valid() && InStruct() && Names() == s + [0] + strs && NamesBack(ts, strs) && AllWf(ts)
        && |strs| < 0x8000_0000 && Said(ts, strs) == es
      modifies this`sizeStrings
      ensures Valid() && Names() == strs && Line() == es
    {
      hide *;
      Bounds();
      LaidParts(buf[..], totalsize, offStruct, sizeStruct, sizeStrings, ts, reserved);
      var len := |s| + 1;
      PartBehind(buf[..], totalsize - sizeStrings, len, |strs|);
      DropFront(s + [0], strs);
      sizeStrings := sizeStrings - len;
      LaidIs(buf[..], totalsize, offStruct, sizeStruct, sizeStrings, ts, reserved);
      Grown(strs, es);
      SaidSoFar();
    }

    /** Writes a property; a name added for it goes again when the property itself finds no room. */
    method WriteProperty(name: seq<Byte>, val: seq<Byte>) returns (err: int)
      requires Valid() && 0 !in name && |val| < 0x8000_0000
      requires InStruct() && !(dedup && Listed(Names(), name)) ==> sizeStrings + |name| + 1 <= totalsize
      modifies this`sizeStruct, this`sizeStrings, this`ts, buf
      ensures Valid()
      ensures var room := PropertyRoom(dedup, old(Names()), name, |val|);
        err == if !old(InStruct()) then -ERR_BADSTATE
          else if offStruct + old(sizeStruct) + old(sizeStrings) + room > totalsize then -ERR_NOSPACE else 0
      ensures Line() == if err == 0 then old(Line()) + [Attr(Property(name, val))] else old(Line())
      ensures err != 0 ==> ts == old(ts) && Names() == old(Names())
    {
      hide *;
      Bounds();
      Codes();
      if !InStruct() { return -ERR_BADSTATE; }
      ghost var strs, es := Names(), Line();
      PropertyRoomIs(dedup, strs, name, |val|);
      var nameoff, added;
      if dedup {
        nameoff, added := FindAddString(name);
      } else {
        added := true;
        nameoff := AddString(name);
      }
      if nameoff == 0 { return -ERR_NOSPACE; }
      Bounds();
      ghost var size := sizeStruct;
      var ok, prop := GrabSpace(12 + Align4(|val|));
      if !ok {
        if added { DelLastString(name, strs, es); }
        return -ERR_NOSPACE;
      }
      PutProp(prop, nameoff + WORD, name, val, Part(buf[..], totalsize - sizeStrings, sizeStrings), es);
      return 0;
    }

    /** Fills in a property in the space taken for it. */
    method PutProp(prop: nat, nameoff: U32, name: seq<Byte>, val: seq<Byte>, ghost strs: seq<Byte>,
            ghost es: seq<Event>)
      requires |val| < 0x8000_0000 && sizeStruct == prop + (12 + Align4(|val|)) && offStrings == totalsize
        && Ended(reserved)
      requires Laid(buf[..], totalsize, offStruct, prop, sizeStrings, ts, reserved)
      requires offStruct + sizeStruct + sizeStrings <= totalsize <= buf.Length
        && strs == Part(buf[..], totalsize - sizeStrings, sizeStrings)
      requires NameBack(nameoff, strs) && StringAt(strs, nameoff + |strs| - WORD) == name
      requires AllWf(ts) && NamesBack(ts, strs) && |strs| < 0x8000_0000 && Said(ts, strs) == es
      modifies this`ts, buf
      ensures Valid() && Line() == es + [Attr(Property(name, val))]
    {
      hide *;
      Codes();
      NameBackBounds(nameoff, strs);
      ghost var b, x, len := buf[..], offStruct + prop, |val|;
      ghost var n := 12 + Align4(len);
      WriteProp(offStruct + prop, nameoff, val);
      ThereIs(b, buf[..], x, nameoff, val);
      ghost var d := buf[..];
      PropBytes(d, x, len, nameoff);
      ghost var t := Token.Prop(nameoff, d[x + 12..x + 12 + len], d[x + 12 + len..x + 12 + Align4(len)]);
      PropSize(t);
      PartSlice(d, x, n);
      LaidToken(b, d, totalsize, offStruct, prop, sizeStrings, ts, reserved, t, n);
      SaidByToken(t, strs);
      ts := ts + [t];
      LaidBounds(d, totalsize, offStruct, sizeStruct, sizeStrings, ts, reserved);
      Grown(strs, Said(ts, strs));
    }

    method WriteProp(p: nat, nameoff: U32, val: seq<Byte>)
      requires p + 12 + Align4(|val|) <= buf.Length && |val| < 0x8000_0000
      modifies buf
      ensures PropThere(old(buf[..]), buf[..], p, nameoff, val)
    {
      hide *;
      ghost var b, n := buf[..], 12 + Align4(|val|);
      AroundSelf(b, p, p + n);
      Write(p, PutU32(PROP));
      ghost var c := buf[..];
      Write(p + 8, PutU32(nameoff));
      ghost var d := buf[..];
      Write(p + 4, PutU32(|val|));
      ghost var e := buf[..];
      Write(p + 12, val);
      ghost var f := buf[..];
      FourWrites(b, c, d, e, f, p, n, PutU32(PROP), PutU32(nameoff), PutU32(|val|), val);
      ThereIs(b, f, p, nameoff, val);
    }
  }

  /** A property's head and value have been written at p, and nothing outside the property. */
  ghost predicate PropThere(b: seq<Byte>, c: seq<Byte>, p: nat, nameoff: U32, val: seq<Byte>) {
    && |val| < 0x8000_0000 && p + 12 + Align4(|val|) <= |c|
    && Around(b, c, p, p + (12 + Align4(|val|)), 12 + Align4(|val|))
    && c[p..p + 4] == PutU32(PROP) && c[p + 4..p + 8] == PutU32(|val|) && c[p + 8..p + 12] == PutU32(nameoff)
    && c[p + 12..p + 12 + |val|] == val
  }

  lemma ThereIs(b: seq<Byte>, c: seq<Byte>, p: nat, nameoff: U32, val: seq<Byte>)
    requires |val| < 0x8000_0000 && p + 12 + Align4(|val|) <= |c|
    ensures PropThere(b, c, p, nameoff, val) <==>
      && Around(b, c, p, p + (12 + Align4(|val|)), 12 + Align4(|val|))
      && c[p..p + 4] == PutU32(PROP) && c[p + 4..p + 8] == PutU32(|val|) && c[p + 8..p + 12] == PutU32(nameoff)
      && c[p + 12..p + 12 + |val|] == val
  {}

  lemma FourWrites(b: seq<Byte>, c: seq<Byte>, d: seq<Byte>, e: seq<Byte>, f: seq<Byte>, p: nat, n: nat,
          tag: seq<Byte>, nameoff: seq<Byte>, len: seq<Byte>, val: seq<Byte>)
    requires Around(b, b, p, p + n, n) && |tag| == |nameoff| == |len| == 4 && 12 + |val| <= n
    requires Written(b, c, p, tag) && Written(c, d, p + 8, nameoff) && Written(d, e, p + 4, len)
      && Written(e, f, p + 12, val)
    ensures Around(b, f, p, p + n, n) && p + n <= |f|
    ensures f[p..p + 4] == tag && f[p + 4..p + 8] == len && f[p + 8..p + 12] == nameoff
      && f[p + 12..p + 12 + |val|] == val
  {
    hide *;
    AroundWritten(b, b, c, p, tag, p, p + n, n);
    AroundWritten(b, c, d, p + 8, nameoff, p, p + n, n);
    AroundWritten(b, d, e, p + 4, len, p, p + n, n);
    AroundWritten(b, e, f, p + 12, val, p, p + n, n);
    AroundFacts(b, f, p, p + n, n);
    WrittenHere(b, c, p, tag);
    WrittenHere(c, d, p + 8, nameoff);
    WrittenHere(d, e, p + 4, len);
    WrittenHere(e, f, p + 12, val);
    WrittenElsewhere(c, d, p + 8, nameoff, p, p + 4);
    WrittenElsewhere(d, e, p + 4, len, p, p + 4);
    WrittenElsewhere(d, e, p + 4, len, p + 8, p + 12);
    WrittenElsewhere(e, f, p + 12, val, p, p + 4);
    WrittenElsewhere(e, f, p + 12, val, p + 4, p + 8);
    WrittenElsewhere(e, f, p + 12, val, p + 8, p + 12);
  }

  /** The room a property takes with and without a search for its name. */
  ghost function PropertyRoom(dedup: bool, strs: seq<Byte>, name: seq<Byte>, len: nat): nat {
    (if dedup then NameRoom(strs, name) else |name| + 1) + 12 + Align4(len)
  }

  lemma PropertyRoomIs(dedup: bool, strs: seq<Byte>, name: seq<Byte>, len: nat)
    ensures NameRoom(strs, name) == if Listed(strs, name) then 0 else |name| + 1
    ensures PropertyRoom(dedup, strs, name, len) ==
      (if dedup then NameRoom(strs, name) else |name| + 1) + 12 + Align4(len)
  {}

  lemma FoundBack(strs: seq<Byte>, o: nat)
    requires HasString(strs, o) && |strs| < 0x8000_0000
    ensures o < |strs| && NameBack(o - |strs| + WORD, strs)
  {}

  lemma PartBehind(b: seq<Byte>, x: nat, n: nat, m: nat)
    requires x + n + m <= |b|
    ensures Part(b, x, n + m) == Part(b, x, n) + Part(b, x + n, m) && |Part(b, x, n)| == n
  {}

  lemma DropFront(a: seq<Byte>, b: seq<Byte>)
    ensures forall c: seq<Byte>, d: seq<Byte> {:trigger c + d} :: |c| == |a| && c + d == a + b ==> d == b
  {
    forall c: seq<Byte>, d: seq<Byte> | |c| == |a| && c + d == a + b
      ensures d == b
    {
      assert (c + d)[|a|..] == d && (a + b)[|a|..] == b;
    }
  }

  lemma NameBackBounds(nameoff: int, strs: seq<Byte>)
    requires 0 <= nameoff < WORD && NameBack(nameoff, strs)
    ensures HasString(strs, nameoff + |strs| - WORD)
  {}

  lemma EightBytes(v: U64)
    ensures |PutU64(v)| == 8
  {}

  lemma PartTwo(b: seq<Byte>, x: nat, n: nat, m: nat)
    requires x + n + m <= |b|
    ensures Part(b, x, n + m) == b[x..x + n] + b[x + n..x + n + m]
  {}

  lemma PartSlice(b: seq<Byte>, x: nat, n: nat)
    requires x + n <= |b|
    ensures Part(b, x, n) == b[x..x + n]
  {}

  lemma EndBytes()
    ensures Wf(EndNode) && Bytes(EndNode) == PutU32(END_NODE)
  {
    assert Bytes(EndNode) == PutU32(END_NODE) + [];
  }

  /** The start of a node behind the other tokens. */
  lemma LaidBegin(b: seq<Byte>, d: seq<Byte>, total: nat, offStruct: nat, size: nat, nstr: nat, ts: seq<Token>,
          rs: seq<(U64, U64)>, name: seq<Byte>)
    returns (t: Token)
    requires Laid(b, total, offStruct, size, nstr, ts, rs) && 0 !in name && |b| == |d|
    requires var n := 4 + Align4(|name| + 1);
      offStruct + size + n + nstr <= total && Around(b, d, offStruct + size, offStruct + size + n, n)
    requires var x := offStruct + size;
      x + 4 + (|name| + 1) <= |d| && d[x..x + 4] == PutU32(BEGIN_NODE) && d[x + 4..x + 4 + (|name| + 1)] == name + [0]
    ensures Laid(d, total, offStruct, size + (4 + Align4(|name| + 1)), nstr, ts + [t], rs)
    ensures total >= nstr && Part(d, total - nstr, nstr) == Part(b, total - nstr, nstr)
    ensures Said(ts + [t], Part(b, total - nstr, nstr)) == Said(ts, Part(b, total - nstr, nstr)) + [Enter(name)]
  {
    hide *;
    LaidBounds(b, total, offStruct, size, nstr, ts, rs);
    var x, n, strs := offStruct + size, 4 + Align4(|name| + 1), Part(b, total - nstr, nstr);
    NameBytes(d, x, name);
    t := Token.BeginNode(name, d[x + 4 + (|name| + 1)..x + n]);
    BeginSize(name, t.pad, strs);
    PartSlice(d, x, n);
    LaidToken(b, d, total, offStruct, size, nstr, ts, rs, t, n);
    SaidByToken(t, strs);
  }

  /** The end of a node behind the other tokens. */
  lemma LaidEnd(b: seq<Byte>, d: seq<Byte>, total: nat, offStruct: nat, size: nat, nstr: nat, ts: seq<Token>,
          rs: seq<(U64, U64)>)
    requires Laid(b, total, offStruct, size, nstr, ts, rs) && |b| == |d| && offStruct + size + 4 + nstr <= total
    requires var x := offStruct + size; Around(b, d, x, x + 4, 4) && x + 4 <= |d| && d[x..x + 4] == PutU32(END_NODE)
    ensures Laid(d, total, offStruct, size + 4, nstr, ts + [Token.EndNode], rs)
    ensures total >= nstr && Part(d, total - nstr, nstr) == Part(b, total - nstr, nstr)
    ensures Said(ts + [Token.EndNode], Part(b, total - nstr, nstr)) == Said(ts, Part(b, total - nstr, nstr)) + [Leave]
  {
    hide *;
    LaidBounds(b, total, offStruct, size, nstr, ts, rs);
    EndBytes();
    PartSlice(d, offStruct + size, 4);
    LaidToken(b, d, total, offStruct, size, nstr, ts, rs, Token.EndNode, 4);
    SaidByToken(Token.EndNode, Part(b, total - nstr, nstr));
  }

  lemma SaidByToken(t: Token, strs: seq<Byte>)
    requires t.Prop? ==> NameBack(t.nameoff, strs)
    ensures t.BeginNode? ==> SaidBy(t, strs) == [Enter(t.name)]
    ensures t.EndNode? ==> SaidBy(t, strs) == [Leave]
    ensures t.Prop? ==> SaidBy(t, strs) == [Attr(Property(StringAt(strs, t.nameoff + |strs| - WORD), t.value))]
  {}
}
