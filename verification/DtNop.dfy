/** Removing in place: a property or a node is overwritten with fillers, and nothing moves. */
module DtNop {
  import opened DtFormat
  import opened DtTree
  import opened DtEvents
  import opened DtBlob
  import opened DtRead
  import opened DtEdit
  import opened DtProperties
  import opened DtNodes

  // ---------- fillers ----------

  ghost function Nops(k: nat): (ts: seq<Token>)
    ensures |ts| == k && forall t :: t in ts ==> t.Nop?
  {
    if k == 0 then [] else [Nop] + Nops(k - 1)
  }

  /** The bytes of k fillers. */
  function NopBytes(k: nat): (s: seq<Byte>)
    ensures |s| == 4 * k
  {
    if k == 0 then [] else PutU32(NOP) + NopBytes(k - 1)
  }

  lemma {:induction false} NopsEncoded(k: nat, strs: seq<Byte>)
    ensures AllWf(Nops(k)) && Encode(Nops(k)) == NopBytes(k)
    ensures NamesOk(Nops(k), strs) && Events(Nops(k), strs) == []
  {
    if k > 0 {
      NopsEncoded(k - 1, strs);
      assert Nops(k)[1..] == Nops(k - 1);
    }
  }

  lemma {:induction false} NopBytesSnoc(k: nat)
    ensures NopBytes(k + 1) == NopBytes(k) + PutU32(NOP)
  {
    if k == 0 {
      assert NopBytes(1) == PutU32(NOP) + NopBytes(0);
    } else {
      NopBytesSnoc(k - 1);
      assert PutU32(NOP) + (NopBytes(k - 1) + PutU32(NOP)) == PutU32(NOP) + NopBytes(k - 1) + PutU32(NOP);
    }
  }

  // ---------- places around the fillers ----------

  ghost function Count(ts: seq<Token>): nat {
    if ts == [] then 0 else (if ts[0].Nop? then 0 else 1) + Count(ts[1..])
  }

  lemma {:induction false} CountIs(ts: seq<Token>, strs: seq<Byte>)
    requires NamesOk(ts, strs)
    ensures |Events(ts, strs)| == Count(ts)
  {
    if ts != [] { CountIs(ts[1..], strs); }
  }

  /** Behind a first part, events are counted on from those of that part. */
  lemma {:induction false} TokBehind(a: seq<Token>, c: seq<Token>, i: nat)
    ensures Tok(a + c, Count(a) + i) == |a| + Tok(c, i)
  {
    if a == [] {
      assert a + c == c;
    } else {
      assert (a + c)[1..] == a[1..] + c;
      TokBehind(a[1..], c, i);
    }
  }

  lemma OffBehind(a: seq<Token>, c: seq<Token>, i: nat)
    requires AllWf(a) && AllWf(c)
    ensures AllWf(a + c) && EvOff(a + c, Count(a) + i) == |Encode(a)| + EvOff(c, i)
  {
    hide *;
    var j := Tok(c, i);
    BehindPart(a, c, j);
    TokBehind(a, c, i);
    OffIs(c, j);
    OffIs(a + c, |a| + j);
    OffOfEvent(c, i, j);
    OffOfEvent(a + c, Count(a) + i, |a| + j);
    EncodeConcat(a, c[..j]);
  }

  lemma BehindPart(a: seq<Token>, c: seq<Token>, j: nat)
    requires AllWf(a) && AllWf(c) && j <= |c|
    ensures AllWf(a + c) && AllWf(c[..j]) && (a + c)[..|a| + j] == a + c[..j]
  {}

  lemma OffIs(ts: seq<Token>, j: nat)
    requires AllWf(ts) && j <= |ts|
    ensures AllWf(ts[..j]) && Off(ts, j) == |Encode(ts[..j])|
  {}

  /** Events x to y are gone; those before keep their numbers and places, those behind only change their numbers. */
  ghost predicate OnlyGone(ts: seq<Token>, us: seq<Token>, x: nat, y: nat)
    requires AllWf(ts) && AllWf(us) && x <= y
  {
    && (forall e: nat :: e < x ==> EvOff(us, e) == EvOff(ts, e))
    && (forall e: nat :: e > y ==> EvOff(us, e - (y + 1 - x)) == EvOff(ts, e))
  }

  /** A stretch of tokens overwritten with fillers. */
  lemma Nopped(ts: seq<Token>, tail: seq<Byte>, strs: seq<Byte>, s: seq<Byte>, u: seq<Byte>, x: nat, y: nat, k: nat)
    requires AllWf(ts) && NamesOk(ts, strs) && x <= y < |Events(ts, strs)| && s == Block(ts, tail)
      && Tok(ts, x) <= Tok(ts, y) < |ts|
    requires Off(ts, Tok(ts, x)) + 4 * k == Off(ts, Tok(ts, y) + 1) && Written(s, u, Off(ts, Tok(ts, x)), NopBytes(k))
    ensures var us := Edited(ts, Tok(ts, x), Tok(ts, y) + 1, Nops(k));
      && AllWf(us) && NamesOk(us, strs) && u == Block(us, tail)
      && Events(us, strs) == Patch(Events(ts, strs), x, y + 1, [])
      && OnlyGone(ts, us, x, y)
  {
    hide *;
    var ja, jb := Tok(ts, x), Tok(ts, y) + 1;
    OffOrder(ts, ja, jb, s, tail);
    NopsEncoded(k, strs);
    AroundSelf(s, Off(ts, ja), Off(ts, jb));
    AroundWritten(s, s, u, Off(ts, ja), NopBytes(k), Off(ts, ja), Off(ts, jb), 4 * k);
    AroundFacts(s, u, Off(ts, ja), Off(ts, jb), 4 * k);
    WrittenHere(s, u, Off(ts, ja), NopBytes(k));
    Rebuilt(s, u, ts, tail, ja, jb, Nops(k));
    EditedEvents(ts, ja, jb, Nops(k), strs);
    EventsAround(ts, strs, x);
    EventsAround(ts, strs, y);
    PatchIs(Events(ts, strs), x, y + 1);
    if x > 0 {
      BeforeEvent(ts, strs, x);
      StartAlike(ts, ja, jb, Nops(k));
      KeptBefore(ts, Edited(ts, ja, jb, Nops(k)), x - 1, ja);
    }
    Behind(ts, strs, x, y, k);
  }

  lemma StartAlike(ts: seq<Token>, ja: nat, jb: nat, mid: seq<Token>)
    requires ja <= jb <= |ts|
    ensures ja <= |Edited(ts, ja, jb, mid)| && Edited(ts, ja, jb, mid)[..ja] == ts[..ja]
  {}

  lemma Behind(ts: seq<Token>, strs: seq<Byte>, x: nat, y: nat, k: nat)
    requires AllWf(ts) && NamesOk(ts, strs) && x <= y < |Events(ts, strs)| && Tok(ts, x) <= Tok(ts, y) < |ts|
    requires Off(ts, Tok(ts, x)) + 4 * k == Off(ts, Tok(ts, y) + 1)
    requires AllWf(Edited(ts, Tok(ts, x), Tok(ts, y) + 1, Nops(k)))
    requires x > 0 ==> Kept(ts, Edited(ts, Tok(ts, x), Tok(ts, y) + 1, Nops(k)), x - 1)
    ensures OnlyGone(ts, Edited(ts, Tok(ts, x), Tok(ts, y) + 1, Nops(k)), x, y)
  {
    hide *;
    var us := Edited(ts, Tok(ts, x), Tok(ts, y) + 1, Nops(k));
    forall e: nat | e > y
      ensures EvOff(us, e - (y + 1 - x)) == EvOff(ts, e)
    {
      BehindAt(ts, strs, x, y, k, e - y - 1);
    }
    GoneMeans(ts, us, x, y);
  }

  lemma GoneMeans(ts: seq<Token>, us: seq<Token>, x: nat, y: nat)
    requires AllWf(ts) && AllWf(us) && x <= y && (x > 0 ==> Kept(ts, us, x - 1))
    requires forall e: nat :: e > y ==> EvOff(us, e - (y + 1 - x)) == EvOff(ts, e)
    ensures OnlyGone(ts, us, x, y)
  {
    hide EvOff;
  }

  lemma BehindAt(ts: seq<Token>, strs: seq<Byte>, x: nat, y: nat, k: nat, e: nat)
    requires AllWf(ts) && NamesOk(ts, strs) && x <= y < |Events(ts, strs)| && Tok(ts, x) <= Tok(ts, y) < |ts|
    requires Off(ts, Tok(ts, x)) + 4 * k == Off(ts, Tok(ts, y) + 1)
    requires AllWf(Edited(ts, Tok(ts, x), Tok(ts, y) + 1, Nops(k)))
    ensures EvOff(Edited(ts, Tok(ts, x), Tok(ts, y) + 1, Nops(k)), x + e) == EvOff(ts, y + 1 + e)
  {
    hide *;
    var ja, jb := Tok(ts, x), Tok(ts, y) + 1;
    var a, b, c := ts[..ja], ts[..jb], ts[jb..];
    EditedIs(ts, ja, jb, Nops(k));
    EventsAround(ts, strs, x);
    EventsAround(ts, strs, y);
    NopsEncoded(k, strs);
    Counted(a, strs, Nops(k), x, Events(ts, strs));
    CountIs(b, strs);
    SplitWf(ts, ja);
    SplitWf(ts, jb);
    EncodeConcat(a, Nops(k));
    OffBehind(a + Nops(k), c, e);
    OffBehind(b, c, e);
    NopLength(k);
  }

  lemma EditedIs(ts: seq<Token>, ja: nat, jb: nat, mid: seq<Token>)
    requires ja <= jb <= |ts|
    ensures Edited(ts, ja, jb, mid) == ts[..ja] + mid + ts[jb..] && ts == ts[..jb] + ts[jb..]
  {}

  lemma NopLength(k: nat)
    ensures |NopBytes(k)| == 4 * k
  {}

  lemma SplitWf(ts: seq<Token>, j: nat)
    requires AllWf(ts) && j <= |ts|
    ensures AllWf(ts[..j]) && AllWf(ts[j..]) && Off(ts, j) == |Encode(ts[..j])|
  {}

  lemma Counted(a: seq<Token>, strs: seq<Byte>, m: seq<Token>, x: nat, es: seq<Event>)
    requires NamesOk(a, strs) && x <= |es| && Events(a, strs) == es[..x] && NamesOk(m, strs) && Events(m, strs) == []
    ensures Count(a + m) == x
  {
    hide *;
    EventsConcat(a, m, strs);
    CountIs(a + m, strs);
  }

  // ---------- the calls ----------

  function Words(len: nat): nat {
    Align4(len) / 4
  }

  lemma WordsIs(len: nat, k: nat)
    ensures 4 * Words(len) == Align4(len)
    ensures k <= Words(len) ==> (4 * k < len <==> k < Words(len))
    ensures Align4(12 + len) == 12 + Align4(len)
  {}

  lemma WrittenOn(s: seq<Byte>, u: seq<Byte>, w: seq<Byte>, o: nat, d: seq<Byte>, e: seq<Byte>)
    requires Written(s, u, o, d) && Written(u, w, o + |d|, e)
    ensures Written(s, w, o, d + e)
  {
    assert u[..o + |d|] == s[..o] + d;
    assert u[o + |d| + |e|..] == s[o + |d| + |e|..];
  }

  lemma WrittenNothing(s: seq<Byte>, o: nat)
    requires o <= |s|
    ensures Written(s, s, o, [])
  {}

  method NopRegion(b: Blob, start: nat, len: nat)
    requires b.Layout() && start + Align4(len) <= b.sizeStruct
    modifies b.buf
    ensures b.Front() == old(b.Front()) && b.Strings() == old(b.Strings())
    ensures Written(old(b.Struct()), b.Struct(), start, NopBytes(Words(len)))
  {
    hide *;
    ghost var s, k := b.Struct(), 0;
    StructSize(b);
    var p := start;
    WrittenNothing(s, start);
    WordsIs(len, 0);
    NopNothing();
    while p < start + len
      invariant p == start + 4 * k && k <= Words(len) && b.Layout()
      invariant b.Front() == old(b.Front()) && b.Strings() == old(b.Strings())
      invariant Written(s, b.Struct(), start, NopBytes(k))
      decreases Words(len) - k
    {
      WordsIs(len, k);
      NopLength(k);
      NopBytesSnoc(k);
      ghost var u := b.Struct();
      b.WriteStruct(p, PutU32(NOP));
      WrittenOn(s, u, b.Struct(), start, NopBytes(k), PutU32(NOP));
      p := p + 4;
      k := k + 1;
    }
    WordsIs(len, k);
  }

  lemma NopNothing()
    ensures NopBytes(0) == []
  {}

  lemma StructSize(b: Blob)
    requires b.Layout()
    ensures |b.Struct()| == b.sizeStruct
  {}

  /** Overwrites a property: it is gone from the tree, and everything else stays where it is. */
  method NopProperty(b: Blob, node: int, name: seq<Byte>, ghost t: Node, ghost p: Path) returns (err: int)
    requires Holds(b, t) && HasPath(t, p) && node == EvOff(b.ts, Place(t, p))
    modifies b`ts, b.buf
    ensures b.Valid() && b.Front() == old(b.Front()) && b.Strings() == old(b.Strings())
    ensures err == if FindProp(At(t, p).props, name) < |At(t, p).props| then 0 else -ERR_NOTFOUND
    ensures Holds(b, Replace(t, p, WithoutProp(At(t, p), name)))
    ensures var x := Place(t, p) + 1 + FindProp(At(t, p).props, name);
      if err == 0 then OnlyGone(old(b.ts), b.ts, x, x) else b.ts == old(b.ts)
  {
    hide *;
    HoldsFacts(b, t);
    Known(b);
    TagsDiffer();
    Placed(t, p);
    ghost var n, i, ts, tail, strs, s := At(t, p), Place(t, p), b.ts, b.tail, b.Strings(), b.Struct();
    ghost var k := FindProp(n.props, name);
    var prop, value := GetProperty(b, node, name, i, n);
    WithoutIs(t, p, name);
    if prop < 0 { return prop; }
    FoundProp(t, p, name);
    ValueOfIs(n, name);
    ghost var x := i + 1 + k;
    PropToken(ts, strs, x);
    PropHere(ts, tail, Tok(ts, x));
    WordsIs(|value|, 0);
    WordsIs(12 + |value|, 0);
    NopRegion(b, prop, |value| + 12);
    Nopped(ts, tail, strs, s, b.Struct(), x, x, Words(12 + |value|));
    b.ts := Edited(ts, Tok(ts, x), Tok(ts, x) + 1, Nops(Words(12 + |value|)));
    NowValid(b);
    NowHolds(b, Replace(t, p, WithoutProp(n, name)));
    return 0;
  }

  /** Overwrites a node with everything below it. */
  method NopNode(b: Blob, node: int, ghost t: Node, ghost p: Path) returns (err: int)
    requires Holds(b, t) && HasPath(t, p) && node == EvOff(b.ts, Place(t, p))
    modifies b`ts, b.buf
    ensures b.Valid() && b.Front() == old(b.Front()) && b.Strings() == old(b.Strings())
    ensures err == 0 && b.Line() == Before(t, p) + After(t, p)
    ensures OnlyGone(old(b.ts), b.ts, Place(t, p), Place(t, p) + |Flatten(At(t, p))| - 1)
  {
    hide *;
    HoldsFacts(b, t);
    Known(b);
    Placed(t, p);
    ghost var n, x, ts, tail, strs, s := At(t, p), Place(t, p), b.ts, b.tail, b.Strings(), b.Struct();
    ghost var y := x + |Flatten(n)| - 1;
    InTreeEnds(b.Line(), x, n);
    var end := NodeEnd(b, node, x, n);
    NodeExtent(ts, strs, s, tail, x, y);
    RegionWords(ts, tail, Tok(ts, x), Tok(ts, y) + 1);
    NopRegion(b, node, end - node);
    Nopped(ts, tail, strs, s, b.Struct(), x, y, Words(end - node));
    b.ts := Edited(ts, Tok(ts, x), Tok(ts, y) + 1, Nops(Words(end - node)));
    NowValid(b);
    NodeCut(t, p);
    return 0;
  }

  /** Tokens begin at multiples of four. */
  lemma RegionWords(ts: seq<Token>, tail: seq<Byte>, ja: nat, jb: nat)
    requires AllWf(ts) && ja <= jb <= |ts| && Off(ts, ja) <= Off(ts, jb)
    ensures Align4(Off(ts, jb) - Off(ts, ja)) == Off(ts, jb) - Off(ts, ja) == 4 * Words(Off(ts, jb) - Off(ts, ja))
  {
    OffAligned(ts, ja);
    OffAligned(ts, jb);
  }
}
