/** Editing a device tree in place: properties and nodes are set, added and removed by splicing tokens. */
module DtEdit {
  import opened DtFormat
  import opened DtTree
  import opened DtEvents
  import opened DtBlob
  import opened DtRead

  // ---------- editing the token line ----------

  /** The tokens with those from ja up to jb replaced. */
  ghost function Edited(ts: seq<Token>, ja: nat, jb: nat, mid: seq<Token>): seq<Token>
    requires ja <= jb <= |ts|
  {
    ts[..ja] + mid + ts[jb..]
  }

  lemma AllWfEdited(ts: seq<Token>, ja: nat, jb: nat, mid: seq<Token>)
    requires AllWf(ts) && AllWf(mid) && ja <= jb <= |ts|
    ensures AllWf(ts[..ja]) && AllWf(ts[ja..jb]) && AllWf(ts[jb..]) && AllWf(ts[ja..]) && AllWf(Edited(ts, ja, jb, mid))
  {}

  lemma NamesOkEdited(ts: seq<Token>, ja: nat, jb: nat, mid: seq<Token>, strs: seq<Byte>)
    requires NamesOk(ts, strs) && NamesOk(mid, strs) && ja <= jb <= |ts|
    ensures NamesOk(ts[..ja], strs) && NamesOk(ts[jb..], strs) && NamesOk(Edited(ts, ja, jb, mid), strs)
  {}

  lemma OffRange(ts: seq<Token>, ja: nat, jb: nat)
    requires AllWf(ts) && ja <= jb <= |ts|
    ensures AllWf(ts[ja..jb]) && AllWf(ts[..ja]) && Off(ts, ja) == |Encode(ts[..ja])|
      && Off(ts, jb) == Off(ts, ja) + |Encode(ts[ja..jb])|
  {
    AllWfEdited(ts, ja, jb, []);
    assert ts[..jb] == ts[..ja] + ts[ja..jb];
    EncodeConcat(ts[..ja], ts[ja..jb]);
  }

  /** A block whose bytes are the old ones around the bytes of the new tokens. */
  lemma Rebuilt(old_: seq<Byte>, now: seq<Byte>, ts: seq<Token>, tail: seq<Byte>, ja: nat, jb: nat, mid: seq<Token>)
    requires AllWf(ts) && AllWf(mid) && ja <= jb <= |ts| && old_ == Block(ts, tail)
    requires Off(ts, ja) <= Off(ts, jb) <= |old_| && Off(ts, ja) + |Encode(mid)| <= |now|
    requires now[..Off(ts, ja)] == old_[..Off(ts, ja)]
    requires now[Off(ts, ja)..Off(ts, ja) + |Encode(mid)|] == Encode(mid)
    requires now[Off(ts, ja) + |Encode(mid)|..] == old_[Off(ts, jb)..]
    ensures AllWf(Edited(ts, ja, jb, mid)) && now == Block(Edited(ts, ja, jb, mid), tail)
  {
    hide *;
    OldParts(ts, tail, ja, jb);
    BlockOf(ts, tail, ja, jb, mid);
    Assemble(old_, now, Encode(ts[..ja]), Encode(ts[ja..jb]), Encode(mid), Encode(ts[jb..]) + PutU32(END) + tail);
    Regroup(Encode(ts[..ja]) + Encode(mid), Encode(ts[jb..]), PutU32(END), tail);
  }

  lemma Regroup(a: seq<Byte>, b: seq<Byte>, c: seq<Byte>, d: seq<Byte>)
    ensures a + b + c + d == a + (b + c + d)
  {}

  lemma OldParts(ts: seq<Token>, tail: seq<Byte>, ja: nat, jb: nat)
    requires AllWf(ts) && ja <= jb <= |ts|
    ensures AllWf(ts[..ja]) && AllWf(ts[ja..jb]) && AllWf(ts[jb..])
    ensures Block(ts, tail) == Encode(ts[..ja]) + Encode(ts[ja..jb]) + (Encode(ts[jb..]) + PutU32(END) + tail)
    ensures |Encode(ts[..ja])| == Off(ts, ja) && |Encode(ts[..ja])| + |Encode(ts[ja..jb])| == Off(ts, jb)
  {
    hide *;
    OffRange(ts, ja, jb);
    AllWfEdited(ts, ja, jb, []);
    BlockOf(ts, tail, ja, jb, ts[ja..jb]);
    EditedSame(ts, ja, jb);
    Regroup(Encode(ts[..ja]) + Encode(ts[ja..jb]), Encode(ts[jb..]), PutU32(END), tail);
  }

  lemma EditedSame(ts: seq<Token>, ja: nat, jb: nat)
    requires ja <= jb <= |ts|
    ensures Edited(ts, ja, jb, ts[ja..jb]) == ts
  {}

  lemma BlockOf(ts: seq<Token>, tail: seq<Byte>, ja: nat, jb: nat, mid: seq<Token>)
    requires AllWf(ts) && AllWf(mid) && ja <= jb <= |ts|
    ensures AllWf(Edited(ts, ja, jb, mid)) && AllWf(ts[..ja]) && AllWf(ts[jb..])
    ensures Block(Edited(ts, ja, jb, mid), tail) ==
      Encode(ts[..ja]) + Encode(mid) + Encode(ts[jb..]) + PutU32(END) + tail
  {
    AllWfEdited(ts, ja, jb, mid);
    EncodeConcat(ts[..ja] + mid, ts[jb..]);
    EncodeConcat(ts[..ja], mid);
  }

  lemma Assemble(old_: seq<Byte>, now: seq<Byte>, a: seq<Byte>, m: seq<Byte>, x: seq<Byte>, e: seq<Byte>)
    requires old_ == a + m + e && |a| + |x| <= |now|
    requires now[..|a|] == old_[..|a|] && now[|a|..|a| + |x|] == x && now[|a| + |x|..] == old_[|a| + |m|..]
    ensures now == a + x + e
  {
    assert now == now[..|a|] + now[|a|..|a| + |x|] + now[|a| + |x|..];
  }

  /** What an edit of the tokens means for the events. */
  lemma EditedEvents(ts: seq<Token>, ja: nat, jb: nat, mid: seq<Token>, strs: seq<Byte>)
    requires NamesOk(ts, strs) && NamesOk(mid, strs) && ja <= jb <= |ts|
    ensures NamesOk(ts[..ja], strs) && NamesOk(ts[jb..], strs) && NamesOk(Edited(ts, ja, jb, mid), strs)
    ensures Events(Edited(ts, ja, jb, mid), strs) == Events(ts[..ja], strs) + Events(mid, strs) + Events(ts[jb..], strs)
  {
    NamesOkEdited(ts, ja, jb, mid, strs);
    NamesOkParts(ts[..ja], mid, strs);
    EventsConcat(ts[..ja] + mid, ts[jb..], strs);
    EventsConcat(ts[..ja], mid, strs);
  }

  lemma EventsAround(ts: seq<Token>, strs: seq<Byte>, e: nat)
    requires NamesOk(ts, strs) && e < |Events(ts, strs)|
    ensures Tok(ts, e) < |ts| && NamesOk(ts[..Tok(ts, e)], strs) && NamesOk(ts[Tok(ts, e)..], strs)
    ensures NamesOk(ts[..Tok(ts, e) + 1], strs) && NamesOk(ts[Tok(ts, e) + 1..], strs)
    ensures Events(ts[..Tok(ts, e)], strs) == Events(ts, strs)[..e]
    ensures Events(ts[Tok(ts, e)..], strs) == Events(ts, strs)[e..]
    ensures Events(ts[..Tok(ts, e) + 1], strs) == Events(ts, strs)[..e + 1]
    ensures Events(ts[Tok(ts, e) + 1..], strs) == Events(ts, strs)[e + 1..]
  {
    TokAt(ts, strs, e);
    var j := Tok(ts, e);
    NamesOkEdited(ts, j, j, [], strs);
    NamesOkEdited(ts, j + 1, j + 1, [], strs);
    EventsSplit(ts, strs, j);
    EventsSplit(ts, strs, j + 1);
  }

  lemma EventsSplit(ts: seq<Token>, strs: seq<Byte>, j: nat)
    requires NamesOk(ts, strs) && j <= |ts| && NamesOk(ts[..j], strs) && NamesOk(ts[j..], strs)
    ensures Events(ts, strs) == Events(ts[..j], strs) + Events(ts[j..], strs)
  {
    assert ts == ts[..j] + ts[j..];
    EventsConcat(ts[..j], ts[j..], strs);
  }

  /** Places before an edit stay where they are. */
  lemma {:induction false} TokPrefix(ts: seq<Token>, us: seq<Token>, e: nat, m: nat)
    requires Tok(ts, e) < m <= |ts| && m <= |us| && ts[..m] == us[..m]
    ensures Tok(us, e) == Tok(ts, e)
    decreases m
  {
    assert ts[0] == ts[..m][0] == us[..m][0] == us[0];
    if ts[0].Nop? || e > 0 {
      var e1 := if ts[0].Nop? then e else e - 1;
      assert ts[1..][..m - 1] == ts[..m][1..] == us[..m][1..] == us[1..][..m - 1];
      TokPrefix(ts[1..], us[1..], e1, m - 1);
    }
  }

  lemma OffPrefix(ts: seq<Token>, us: seq<Token>, e: nat, m: nat)
    requires AllWf(ts) && AllWf(us) && Tok(ts, e) < m <= |ts| && m <= |us| && ts[..m] == us[..m]
    ensures EvOff(us, e) == EvOff(ts, e)
  {
    TokPrefix(ts, us, e, m);
    var j := Tok(ts, e);
    assert ts[..j] == ts[..m][..j] == us[..m][..j] == us[..j];
  }

  // ---------- editing bytes inside a stretch ----------

  /**
    The bytes before o are the old ones; so are those behind the n bytes that took the place of the old ones up to o1.
  */
  ghost predicate Around(s: seq<Byte>, t: seq<Byte>, o: nat, o1: nat, n: nat) {
    && o <= o1 <= |s| && o + n <= |t|
    && t[..o] == s[..o] && t[o + n..] == s[o1..]
  }

  lemma AroundSpliced(s: seq<Byte>, t: seq<Byte>, p: nat, oldlen: nat, newlen: nat, o: nat, o1: nat, n: nat)
    requires Spliced(s, t, p, oldlen, newlen) && o <= p && p + oldlen <= o1 <= |s| && n == o1 - o - oldlen + newlen
    ensures Around(s, t, o, o1, n)
    ensures t[o..p] == s[o..p]
    ensures t[p..p + Least(oldlen, newlen)] == s[p..p + Least(oldlen, newlen)]
  {
    var k := p + newlen;
    assert t == s[..p] + t[p..k] + s[p + oldlen..];
    assert t[..p] == s[..p];
    assert t[..o] == t[..p][..o] && s[..o] == s[..p][..o];
    assert t[o..p] == t[..p][o..p] && s[o..p] == s[..p][o..p];
    assert t[k..] == s[p + oldlen..];
    assert t[o + n..] == t[k..][o + n - k..] && s[o1..] == s[p + oldlen..][o1 - (p + oldlen)..];
  }

  lemma AroundWritten(s: seq<Byte>, t: seq<Byte>, u: seq<Byte>, w: nat, data: seq<Byte>, o: nat, o1: nat, n: nat)
    requires Around(s, t, o, o1, n) && Written(t, u, w, data) && o <= w && w + |data| <= o + n
    ensures Around(s, u, o, o1, n)
  {
    assert u[..o] == t[..o];
    assert u[o + n..] == t[o + n..];
  }

  lemma WrittenHere(t: seq<Byte>, u: seq<Byte>, w: nat, data: seq<Byte>)
    requires Written(t, u, w, data)
    ensures |u| == |t| && u[w..w + |data|] == data
  {}

  lemma WrittenElsewhere(t: seq<Byte>, u: seq<Byte>, w: nat, data: seq<Byte>, i: nat, j: nat)
    requires Written(t, u, w, data) && i <= j <= |t| && (j <= w || w + |data| <= i)
    ensures u[i..j] == t[i..j]
  {}

  /** Bytes with the head of a property are a property, whatever its value and padding are. */
  lemma PropBytes(t: seq<Byte>, o: nat, len: nat, nameoff: U32)
    requires len < 0x8000_0000 && o + 12 + Align4(len) <= |t|
    requires t[o..o + 4] == PutU32(PROP) && t[o + 4..o + 8] == PutU32(len) && t[o + 8..o + 12] == PutU32(nameoff)
    ensures
      var p := Prop(nameoff, t[o + 12..o + 12 + len], t[o + 12 + len..o + 12 + Align4(len)]);
      Wf(p) && Bytes(p) == t[o..o + 12 + Align4(len)]
  {
    hide *;
    PropIs(nameoff, t[o + 12..o + 12 + len], t[o + 12 + len..o + 12 + Align4(len)]);
    FiveParts(t, o, o + 4, o + 8, o + 12, o + 12 + len, o + 12 + Align4(len));
  }

  lemma FiveParts(t: seq<Byte>, a: nat, b: nat, c: nat, d: nat, e: nat, f: nat)
    requires a <= b <= c <= d <= e <= f <= |t|
    ensures t[a..f] == t[a..b] + (t[b..c] + t[c..d] + t[d..e] + t[e..f])
  {}

  lemma PropIs(nameoff: U32, value: seq<Byte>, pad: seq<Byte>)
    requires |value| < 0x8000_0000 && |pad| == Align4(|value|) - |value|
    ensures var p := Prop(nameoff, value, pad);
      Wf(p) && Bytes(p) == PutU32(PROP) + (PutU32(|value|) + PutU32(nameoff) + value + pad)
  {}

  /** The places of the events up to e have not moved. */
  ghost predicate Kept(ts: seq<Token>, us: seq<Token>, e: nat)
    requires AllWf(ts) && AllWf(us)
  {
    forall x :: 0 <= x <= e ==> EvOff(us, x) == EvOff(ts, x)
  }

  lemma {:induction false} TokMonotone(ts: seq<Token>, x: nat, y: nat)
    requires x <= y
    ensures Tok(ts, x) <= Tok(ts, y)
    decreases |ts|
  {
    if ts != [] && (ts[0].Nop? || x > 0) {
      if ts[0].Nop? { TokMonotone(ts[1..], x, y); } else { TokMonotone(ts[1..], x - 1, y - 1); }
    }
  }

  lemma KeptBefore(ts: seq<Token>, us: seq<Token>, e: nat, m: nat)
    requires AllWf(ts) && AllWf(us) && Tok(ts, e) < m <= |ts| && m <= |us| && ts[..m] == us[..m]
    ensures Kept(ts, us, e)
  {
    forall x | 0 <= x <= e
      ensures EvOff(us, x) == EvOff(ts, x)
    {
      TokMonotone(ts, x, e);
      OffPrefix(ts, us, x, m);
    }
  }

  lemma EditedAt(ts: seq<Token>, ja: nat, jb: nat, t: Token)
    requires ja <= jb <= |ts|
    ensures var us := Edited(ts, ja, jb, [t]);
      ja < |us| && us[ja] == t && us[..ja] == ts[..ja] && us[ja + 1..] == ts[jb..]
  {}

  /** One token put in the place of those from ja up to jb, in bytes and in events. */
  lemma OneToken(ts: seq<Token>, tail: seq<Byte>, strs: seq<Byte>, s: seq<Byte>, u: seq<Byte>, ja: nat, jb: nat,
          t: Token)
    requires AllWf(ts) && NamesOk(ts, strs) && ja <= jb <= |ts| && s == Block(ts, tail)
    requires Wf(t) && !t.Nop? && (t.Prop? ==> HasString(strs, t.nameoff))
    requires Around(s, u, Off(ts, ja), Off(ts, jb), |Bytes(t)|) && u[Off(ts, ja)..Off(ts, ja) + |Bytes(t)|] == Bytes(t)
    ensures var us := Edited(ts, ja, jb, [t]);
      && AllWf(us) && NamesOk(us, strs) && u == Block(us, tail)
      && NamesOk(ts[..ja], strs) && NamesOk(ts[jb..], strs)
      && Events(us, strs) == Events(ts[..ja], strs) + [Ev(t, strs)] + Events(ts[jb..], strs)
      && Tok(us, |Events(ts[..ja], strs)|) == ja && Off(us, ja) == Off(ts, ja)
  {
    hide *;
    OneWf(t, strs);
    EncodeOne(t);
    OffOrder(ts, ja, jb, s, tail);
    AroundFacts(s, u, Off(ts, ja), Off(ts, jb), |Bytes(t)|);
    Rebuilt(s, u, ts, tail, ja, jb, [t]);
    EditedEvents(ts, ja, jb, [t], strs);
    EventsOne(t, strs);
    EditedAt(ts, ja, jb, t);
    var us := Edited(ts, ja, jb, [t]);
    TokOf(us, strs, ja);
    OffSame(ts, us, ja);
  }

  lemma OneWf(t: Token, strs: seq<Byte>)
    requires Wf(t) && (t.Prop? ==> HasString(strs, t.nameoff))
    ensures AllWf([t]) && NamesOk([t], strs)
  {}

  lemma OffSame(ts: seq<Token>, us: seq<Token>, j: nat)
    requires AllWf(ts) && AllWf(us) && j <= |ts| && j <= |us| && ts[..j] == us[..j]
    ensures Off(ts, j) == Off(us, j)
  {}

  lemma OffOrder(ts: seq<Token>, ja: nat, jb: nat, s: seq<Byte>, tail: seq<Byte>)
    requires AllWf(ts) && ja <= jb <= |ts| && s == Block(ts, tail)
    ensures Off(ts, ja) <= Off(ts, jb) <= |s|
  {
    OffRange(ts, ja, jb);
    OffRange(ts, jb, |ts|);
    BlockEnd(ts, tail);
  }

  lemma AroundFacts(s: seq<Byte>, t: seq<Byte>, o: nat, o1: nat, n: nat)
    requires Around(s, t, o, o1, n)
    ensures o <= o1 <= |s| && o + n <= |t| && t[..o] == s[..o] && t[o + n..] == s[o1..]
  {}

  /** A property with a given name and yet unknown value, put right behind the start of a node. */
  lemma InsertedProp(ts: seq<Token>, tail: seq<Byte>, strs: seq<Byte>, s: seq<Byte>, u: seq<Byte>, e: nat,
          name: seq<Byte>, nameoff: U32, len: nat)
    returns (p: Token)
    requires AllWf(ts) && NamesOk(ts, strs) && e < |Events(ts, strs)| && s == Block(ts, tail) && len < 0x8000_0000
    requires HasString(strs, nameoff) && StringAt(strs, nameoff) == name
    requires Tok(ts, e) < |ts|
    requires var o := Off(ts, Tok(ts, e) + 1);
      && Around(s, u, o, o, 12 + Align4(len)) && o + 12 + Align4(len) <= |u|
      && u[o..o + 4] == PutU32(PROP) && u[o + 4..o + 8] == PutU32(len) && u[o + 8..o + 12] == PutU32(nameoff)
    ensures p.Prop? && |p.value| == len
    ensures var us, es := Edited(ts, Tok(ts, e) + 1, Tok(ts, e) + 1, [p]), Events(ts, strs);
      && AllWf(us) && NamesOk(us, strs) && u == Block(us, tail)
      && Events(us, strs) == es[..e + 1] + [Attr(Property(name, p.value))] + es[e + 1..]
      && Kept(ts, us, e) && EvOff(us, e + 1) == Off(ts, Tok(ts, e) + 1)
  {
    hide *;
    var j := Tok(ts, e) + 1;
    var o := Off(ts, j);
    p := Prop(nameoff, u[o + 12..o + 12 + len], u[o + 12 + len..o + 12 + Align4(len)]);
    PropBytes(u, o, len, nameoff);
    PropSize(p);
    EventsAround(ts, strs, e);
    OneToken(ts, tail, strs, s, u, j, j, p);
    EvOfProp(p, strs);
    EditedAt(ts, j, j, p);
    KeptBefore(ts, Edited(ts, j, j, [p]), e, j);
    OffOfEvent(Edited(ts, j, j, [p]), e + 1, j);
  }

  lemma PropSize(p: Token)
    requires p.Prop? && Wf(p)
    ensures |Bytes(p)| == 12 + Align4(|p.value|)
  {
    PropLayout(p.nameoff, p.value, p.pad);
  }

  lemma EvOfProp(p: Token, strs: seq<Byte>)
    requires p.Prop? && HasString(strs, p.nameoff)
    ensures Ev(p, strs) == Attr(Property(StringAt(strs, p.nameoff), p.value))
  {}

  // ---------- properties ----------

  /** The three words of a new property in the room made for it. */
  lemma HeadWritten(s: seq<Byte>, t: seq<Byte>, u: seq<Byte>, v: seq<Byte>, w: seq<Byte>, o: nat, n: nat,
          tag: seq<Byte>, nameoff: seq<Byte>, len: seq<Byte>)
    requires Spliced(s, t, o, 0, n) && n >= 12 && |tag| == |nameoff| == |len| == 4
    requires Written(t, u, o, tag) && Written(u, v, o + 8, nameoff) && Written(v, w, o + 4, len)
    ensures Around(s, w, o, o, n) && o + n <= |w|
    ensures w[o..o + 4] == tag && w[o + 4..o + 8] == len && w[o + 8..o + 12] == nameoff
  {
    SplicedSize(s, t, o, 0, n);
    hide *;
    AroundSpliced(s, t, o, 0, n, o, o, n);
    AroundWritten(s, t, u, o, tag, o, o, n);
    AroundWritten(s, u, v, o + 8, nameoff, o, o, n);
    AroundWritten(s, v, w, o + 4, len, o, o, n);
    AroundFacts(s, w, o, o, n);
    WrittenHere(t, u, o, tag);
    WrittenHere(u, v, o + 8, nameoff);
    WrittenHere(v, w, o + 4, len);
    WrittenElsewhere(u, v, o + 8, nameoff, o, o + 4);
    WrittenElsewhere(v, w, o + 4, len, o, o + 4);
    WrittenElsewhere(v, w, o + 4, len, o + 8, o + 12);
  }

  lemma SplicedSize(s: seq<Byte>, t: seq<Byte>, o: nat, oldlen: nat, newlen: nat)
    requires Spliced(s, t, o, oldlen, newlen)
    ensures |t| == |s| - oldlen + newlen && o + newlen <= |t| && o + oldlen <= |s|
  {}

  /** With the tokens as they are and a longer table of names, the blob says what it said. */
  lemma StillValid(b: Blob, strs: seq<Byte>, more: seq<Byte>)
    requires b.Layout() && AllWf(b.ts) && b.Struct() == Block(b.ts, b.tail) && NamesOk(b.ts, strs)
      && b.Strings() == strs + more
    ensures b.Valid() && b.Line() == Events(b.ts, strs) == Events(b.ts, b.Strings())
  {
    EventsMore(b.ts, strs, more);
  }

  lemma NowValid(b: Blob)
    requires b.Layout() && AllWf(b.ts) && b.Struct() == Block(b.ts, b.tail) && NamesOk(b.ts, b.Strings())
    ensures b.Valid() && b.Line() == Events(b.ts, b.Strings())
  {}

  lemma NoStrings(strs: seq<Byte>, s: seq<Byte>)
    ensures strs + [] == strs && (strs + s + [0])[..|strs + s + [0]| - (|s| + 1)] == strs
    ensures strs + s + [0] == strs + (s + [0])
  {}

  /** Room for a property, with its three words filled in. */
  method InsertHead(b: Blob, prop: nat, nameoff: U32, len: nat) returns (err: int)
    requires b.Layout() && prop <= b.sizeStruct && len < 0x8000_0000
    modifies b`sizeStruct, b`offStrings, b.buf
    ensures b.Layout() && b.Front() == old(b.Front()) && b.Strings() == old(b.Strings())
    ensures err == if old(b.DataSize()) + 12 + Align4(len) > b.totalsize then -ERR_NOSPACE else 0
    ensures b.DataSize() == old(b.DataSize()) + if err == 0 then 12 + Align4(len) else 0
    ensures err != 0 ==> b.Struct() == old(b.Struct())
    ensures err == 0 ==> var u, n := b.Struct(), 12 + Align4(len);
      && Around(old(b.Struct()), u, prop, prop, n) && prop + n <= |u|
      && u[prop..prop + 4] == PutU32(PROP) && u[prop + 4..prop + 8] == PutU32(len)
      && u[prop + 8..prop + 12] == PutU32(nameoff)
  {
    hide *;
    var proplen := 12 + Align4(len);
    ghost var s := b.Struct();
    err := b.SpliceStruct(prop, 0, proplen);
    if err != 0 { return; }
    ghost var s1 := b.Struct();
    SplicedSize(s, s1, prop, 0, proplen);
    b.WriteStruct(prop, PutU32(PROP));
    ghost var s2 := b.Struct();
    b.WriteStruct(prop + 8, PutU32(nameoff));
    ghost var s3 := b.Struct();
    b.WriteStruct(prop + 4, PutU32(len));
    HeadWritten(s, s1, s2, s3, b.Struct(), prop, proplen, PutU32(PROP), PutU32(nameoff), PutU32(len));
  }

  /** What a new property takes: its head, its value, and its name unless that is listed. */
  ghost function NewPropRoom(strs: seq<Byte>, name: seq<Byte>, len: nat): nat {
    NameRoom(strs, name) + 12 + Align4(len)
  }

  lemma NewPropRoomIs(strs: seq<Byte>, name: seq<Byte>, len: nat)
    ensures NewPropRoom(strs, name, len) == NameRoom(strs, name) + 12 + Align4(len)
    ensures ERR_NOSPACE == 3
  {}

  /** Puts a property of a given length behind the start of a node; what its value is stays open. */
  method AddProperty(b: Blob, node: int, name: seq<Byte>, len: nat, ghost e: nat)
    returns (err: int, prop: int, ghost v: seq<Byte>)
    requires b.Valid() && e < |b.Line()| && b.Line()[e].Enter? && node == EvOff(b.ts, e)
    requires 0 !in name && len < 0x8000_0000
    modifies b, b.buf
    ensures b.Valid() && b.Front() == old(b.Front()) && b.totalsize == old(b.totalsize)
    ensures err == if old(b.DataSize()) + NewPropRoom(old(b.Strings()), name, len) > b.totalsize then -ERR_NOSPACE
      else 0
    ensures b.DataSize() == old(b.DataSize()) + if err == 0 then NewPropRoom(old(b.Strings()), name, len) else 0
    ensures err != 0 ==> b.ts == old(b.ts) && b.Strings() == old(b.Strings()) && b.Line() == old(b.Line())
    ensures err == 0 ==>
      |v| == len && b.Line() == old(b.Line())[..e + 1] + [Attr(Property(name, v))] + old(b.Line())[e + 1..]
    ensures err == 0 ==> prop == EvOff(b.ts, e + 1) && Kept(old(b.ts), b.ts, e)
  {
    hide *;
    Known(b);
    TagsDiffer();
    ghost var ts, tail, strs, s := b.ts, b.tail, b.Strings(), b.Struct();
    NodeTag(ts, strs, e);
    OffOfEvent(ts, e, Tok(ts, e));
    OffOrder(ts, Tok(ts, e) + 1, Tok(ts, e) + 1, s, tail);
    NoStrings(strs, name);
    NewPropRoomIs(strs, name, len);
    v := [];
    var next := CheckNodeOffset(b, node, Tok(ts, e));
    var nameoff, added := b.FindAddString(name);
    if nameoff < 0 {
      NowValid(b);
      return nameoff, 0, v;
    }
    StillValid(b, strs, if added then name + [0] else []);
    NamesUpTo(b, nameoff);
    ghost var more := b.Strings();
    prop := next;
    err := InsertHead(b, prop, nameoff, len);
    if err != 0 {
      if added { b.DelLastString(name); }
      NowValid(b);
      return;
    }
    ghost var p := InsertedProp(ts, tail, more, s, b.Struct(), e, name, nameoff, len);
    b.ts := Edited(ts, Tok(ts, e) + 1, Tok(ts, e) + 1, [p]);
    v := p.value;
    NowValid(b);
  }

  lemma NamesUpTo(b: Blob, o: int)
    requires b.Layout() && HasString(b.Strings(), o)
    ensures 0 <= o < 0x8000_0000
  {}

  /** The words of a property in its block, as bytes. */
  lemma PropHere(ts: seq<Token>, tail: seq<Byte>, j: nat)
    requires AllWf(ts) && j < |ts| && ts[j].Prop? && Wf(ts[j])
    ensures var s, o, t := Block(ts, tail), Off(ts, j), ts[j];
      && |t.value| < 0x8000_0000 && Off(ts, j + 1) == o + 12 + Align4(|t.value|) <= |s|
      && s[o..o + 4] == PutU32(PROP) && s[o + 4..o + 8] == PutU32(|t.value|) && s[o + 8..o + 12] == PutU32(t.nameoff)
      && s[o + 12..o + 12 + |t.value|] == t.value
  {
    hide *;
    var s, o, t := Block(ts, tail), Off(ts, j), ts[j];
    BlockAt(ts, tail, j);
    PropLayout(t.nameoff, t.value, t.pad);
    ValueFits(t.nameoff, t.value, t.pad);
    var b := Bytes(t);
    Sub(s, o, b, 0, 4);
    Sub(s, o, b, 4, 8);
    Sub(s, o, b, 8, 12);
    Sub(s, o, b, 12, 12 + |t.value|);
  }

  /** The block with the value of one property exchanged. */
  lemma ReplacedProp(ts: seq<Token>, tail: seq<Byte>, strs: seq<Byte>, s: seq<Byte>, u: seq<Byte>, x: nat, len: nat)
    returns (p: Token)
    requires AllWf(ts) && NamesOk(ts, strs) && x < |Events(ts, strs)| && Events(ts, strs)[x].Attr?
      && s == Block(ts, tail)
    requires len < 0x8000_0000 && Tok(ts, x) < |ts| && ts[Tok(ts, x)].Prop?
    requires var o, o1 := Off(ts, Tok(ts, x)), Off(ts, Tok(ts, x) + 1);
      && Around(s, u, o, o1, 12 + Align4(len)) && o + 12 + Align4(len) <= |u|
      && u[o..o + 4] == PutU32(PROP) && u[o + 4..o + 8] == PutU32(len)
      && u[o + 8..o + 12] == PutU32(ts[Tok(ts, x)].nameoff)
    ensures p.Prop? && |p.value| == len && Wf(p)
    ensures var o := Off(ts, Tok(ts, x)); o + 12 + len <= |u| && p.value == u[o + 12..o + 12 + len]
    ensures var us, es := Edited(ts, Tok(ts, x), Tok(ts, x) + 1, [p]), Events(ts, strs);
      && AllWf(us) && NamesOk(us, strs) && u == Block(us, tail)
      && Events(us, strs) == es[x := Attr(Property(es[x].prop.name, p.value))]
      && Kept(ts, us, x)
  {
    hide *;
    var j := Tok(ts, x);
    var o, nameoff := Off(ts, j), ts[j].nameoff;
    p := Prop(nameoff, u[o + 12..o + 12 + len], u[o + 12 + len..o + 12 + Align4(len)]);
    PropToken(ts, strs, x);
    PropBytes(u, o, len, nameoff);
    PropSize(p);
    EventsAround(ts, strs, x);
    OneToken(ts, tail, strs, s, u, j, j + 1, p);
    EvOfProp(p, strs);
    var us := Edited(ts, j, j + 1, [p]);
    EditedAt(ts, j, j + 1, p);
    OffOfEvent(us, x, j);
    OffOfEvent(ts, x, j);
    if x > 0 { BeforeEvent(ts, strs, x); KeptBefore(ts, us, x - 1, j); }
    KeptOneMore(ts, us, x);
    OneChanged(Events(ts, strs), x, Attr(Property(Events(ts, strs)[x].prop.name, p.value)));
  }

  lemma OneChanged(es: seq<Event>, x: nat, a: Event)
    requires x < |es|
    ensures es[..x] + [a] + es[x + 1..] == es[x := a]
  {}

  lemma BeforeEvent(ts: seq<Token>, strs: seq<Byte>, x: nat)
    requires NamesOk(ts, strs) && 0 < x < |Events(ts, strs)|
    ensures Tok(ts, x - 1) < Tok(ts, x)
  {
    hide Events, NamesOk;
    TokAt(ts, strs, x);
    TokAt(ts, strs, x - 1);
    TokMonotone(ts, x - 1, x);
  }

  lemma KeptOneMore(ts: seq<Token>, us: seq<Token>, x: nat)
    requires AllWf(ts) && AllWf(us) && EvOff(us, x) == EvOff(ts, x) && (x > 0 ==> Kept(ts, us, x - 1))
    ensures Kept(ts, us, x)
  {}

  /** The value area resized and the length word set. */
  lemma ResizedBytes(s: seq<Byte>, t: seq<Byte>, u: seq<Byte>, o: nat, a1: nat, a2: nat, len: seq<Byte>, m: nat)
    requires Spliced(s, t, o + 12, a1, a2) && Written(t, u, o + 4, len) && |len| == 4 && m <= a1 && m <= a2
    ensures o + 12 + a1 <= |s| && Around(s, u, o, o + 12 + a1, 12 + a2) && o + 12 + a2 <= |u|
    ensures u[o..o + 4] == s[o..o + 4] && u[o + 4..o + 8] == len && u[o + 8..o + 12] == s[o + 8..o + 12]
    ensures u[o + 12..o + 12 + m] == s[o + 12..o + 12 + m]
  {
    SplicedSize(s, t, o + 12, a1, a2);
    LeastIs(a1, a2, m);
    hide *;
    var k := Least(a1, a2);
    AroundSpliced(s, t, o + 12, a1, a2, o, o + 12 + a1, 12 + a2);
    AroundWritten(s, t, u, o + 4, len, o, o + 12 + a1, 12 + a2);
    AroundFacts(s, u, o, o + 12 + a1, 12 + a2);
    WrittenHere(t, u, o + 4, len);
    KeptWords(s, t, u, o, len);
    WrittenElsewhere(t, u, o + 4, len, o + 12, o + 12 + m);
    Slice(t, o + 12, o + 12 + k, 0, m);
    Slice(s, o + 12, o + 12 + k, 0, m);
  }

  lemma LeastIs(a: nat, b: nat, m: nat)
    requires m <= a && m <= b
    ensures m <= Least(a, b)
  {}

  lemma KeptWords(s: seq<Byte>, t: seq<Byte>, u: seq<Byte>, o: nat, len: seq<Byte>)
    requires o + 12 <= |s| && o + 12 <= |t| && t[o..o + 12] == s[o..o + 12] && Written(t, u, o + 4, len) && |len| == 4
    ensures |u| == |t| && u[o..o + 4] == s[o..o + 4] && u[o + 8..o + 12] == s[o + 8..o + 12]
  {
    hide *;
    WrittenHere(t, u, o + 4, len);
    WrittenElsewhere(t, u, o + 4, len, o, o + 4);
    WrittenElsewhere(t, u, o + 4, len, o + 8, o + 12);
    Slice(t, o, o + 12, 0, 4);
    Slice(s, o, o + 12, 0, 4);
    Slice(t, o, o + 12, 8, 12);
    Slice(s, o, o + 12, 8, 12);
  }

  /** The line with the value of one property changed. */
  ghost function WithValue(es: seq<Event>, x: nat, v: seq<Byte>): seq<Event>
    requires x < |es| && es[x].Attr?
  {
    es[x := Attr(Property(es[x].prop.name, v))]
  }

  /** Gives a property room for a value of another length; the old value stays as far as it fits. */
  method ResizeValue(b: Blob, prop: int, oldlen: nat, newlen: nat, ghost x: nat) returns (err: int, ghost v: seq<Byte>)
    requires b.Valid() && x < |b.Line()| && b.Line()[x].Attr? && prop == EvOff(b.ts, x)
    requires oldlen == |b.Line()[x].prop.value| && newlen < 0x8000_0000
    modifies b, b.buf
    ensures b.Valid() && b.Front() == old(b.Front()) && b.Strings() == old(b.Strings())
      && b.totalsize == old(b.totalsize)
    ensures err == if old(b.DataSize()) - Align4(oldlen) + Align4(newlen) > b.totalsize then -ERR_NOSPACE else 0
    ensures b.DataSize() == old(b.DataSize()) + if err == 0 then Align4(newlen) - Align4(oldlen) else 0
    ensures err != 0 ==> b.ts == old(b.ts) && b.Line() == old(b.Line())
    ensures err == 0 ==> |v| == newlen && b.Line() == WithValue(old(b.Line()), x, v) && Kept(old(b.ts), b.ts, x)
    ensures err == 0 ==> var m := Least(oldlen, newlen); v[..m] == old(b.Line())[x].prop.value[..m]
  {
    hide *;
    Known(b);
    ghost var ts, tail, strs, s, es := b.ts, b.tail, b.Strings(), b.Struct(), b.Line();
    ghost var j, m := Tok(ts, x), Least(oldlen, newlen);
    PropToken(ts, strs, x);
    PropHere(ts, tail, j);
    v := [];
    err := b.SpliceStruct(prop + 12, Align4(oldlen), Align4(newlen));
    if err != 0 {
      NowValid(b);
      return;
    }
    ghost var t := b.Struct();
    SplicedSize(s, t, prop + 12, Align4(oldlen), Align4(newlen));
    b.WriteStruct(prop + 4, PutU32(newlen));
    ResizedBytes(s, t, b.Struct(), prop, Align4(oldlen), Align4(newlen), PutU32(newlen), m);
    ghost var p := ReplacedProp(ts, tail, strs, s, b.Struct(), x, newlen);
    v := p.value;
    SameStart(v, ts[j].value, b.Struct(), s, prop + 12, m);
    ValueChanged(es, x, v);
    b.ts := Edited(ts, j, j + 1, [p]);
    NowValid(b);
  }

  lemma ValueChanged(es: seq<Event>, x: nat, v: seq<Byte>)
    requires x < |es| && es[x].Attr?
    ensures WithValue(es, x, v) == es[x := Attr(Property(es[x].prop.name, v))]
  {}

  lemma SameStart(v: seq<Byte>, w: seq<Byte>, u: seq<Byte>, s: seq<Byte>, a: nat, m: nat)
    requires a + |v| <= |u| && a + |w| <= |s| && v == u[a..a + |v|] && w == s[a..a + |w|] && m <= |v| && m <= |w|
    requires u[a..a + m] == s[a..a + m]
    ensures v[..m] == w[..m]
  {
    Slice(u, a, a + |v|, 0, m);
    Slice(s, a, a + |w|, 0, m);
  }

  // ---------- tokens of the same size ----------

  lemma {:induction false} TokAlike(ts: seq<Token>, us: seq<Token>, e: nat)
    requires |ts| == |us| && forall k :: 0 <= k < |ts| ==> (ts[k].Nop? <==> us[k].Nop?)
    ensures Tok(us, e) == Tok(ts, e)
  {
    if ts != [] && (ts[0].Nop? || e > 0) {
      TokAlike(ts[1..], us[1..], if ts[0].Nop? then e else e - 1);
    }
  }

  /** A token exchanged for one of the same size moves nothing. */
  lemma SameSize(ts: seq<Token>, j: nat, p: Token, e: nat)
    requires AllWf(ts) && j < |ts| && Wf(p) && (p.Nop? <==> ts[j].Nop?) && Wf(ts[j]) && |Bytes(p)| == |Bytes(ts[j])|
    ensures AllWf(Edited(ts, j, j + 1, [p])) && EvOff(Edited(ts, j, j + 1, [p]), e) == EvOff(ts, e)
  {
    hide *;
    OnlyWf(p);
    AllWfEdited(ts, j, j + 1, [p]);
    var us := Edited(ts, j, j + 1, [p]);
    NopsAlike(ts, j, p);
    TokAlike(ts, us, e);
    OffAlike(ts, j, p, Tok(ts, e));
    OffOfEvent(ts, e, Tok(ts, e));
    OffOfEvent(us, e, Tok(ts, e));
  }

  lemma OnlyWf(p: Token)
    requires Wf(p)
    ensures AllWf([p])
  {}

  lemma NopsAlike(ts: seq<Token>, j: nat, p: Token)
    requires j < |ts| && (p.Nop? <==> ts[j].Nop?)
    ensures var us := Edited(ts, j, j + 1, [p]);
      |us| == |ts| && forall k :: 0 <= k < |ts| ==> (ts[k].Nop? <==> us[k].Nop?)
  {}

  lemma OffAlike(ts: seq<Token>, j: nat, p: Token, k: nat)
    requires AllWf(ts) && j < |ts| && k <= |ts| && Wf(p) && Wf(ts[j]) && |Bytes(p)| == |Bytes(ts[j])|
    requires AllWf(Edited(ts, j, j + 1, [p]))
    ensures |Edited(ts, j, j + 1, [p])| == |ts| && Off(Edited(ts, j, j + 1, [p]), k) == Off(ts, k)
  {
    hide *;
    var us := Edited(ts, j, j + 1, [p]);
    SameSlices(ts, j, p, k);
    if k <= j {
      OffSame(ts, us, k);
    } else {
      OffSame(ts, us, j);
      OffRange(us, j + 1, k);
      OffRange(ts, j + 1, k);
      EncodeAt(ts, j);
      EncodeAt(us, j);
    }
  }

  lemma SameSlices(ts: seq<Token>, j: nat, p: Token, k: nat)
    requires j < |ts| && k <= |ts|
    ensures var us := Edited(ts, j, j + 1, [p]);
      && |us| == |ts| && us[j] == p && us[..j] == ts[..j]
      && (k <= j ==> us[..k] == ts[..k]) && (k > j ==> us[j + 1..k] == ts[j + 1..k])
  {
    var us := Edited(ts, j, j + 1, [p]);
    assert us == ts[j := p];
  }

  /** Writes bytes into the value of a property. */
  method WriteValue(b: Blob, prop: int, at: nat, data: seq<Byte>, ghost x: nat)
    requires b.Valid() && x < |b.Line()| && b.Line()[x].Attr? && prop == EvOff(b.ts, x)
    requires at + |data| <= |b.Line()[x].prop.value|
    modifies b, b.buf
    ensures b.Valid() && b.Front() == old(b.Front()) && b.Strings() == old(b.Strings())
    ensures b.totalsize == old(b.totalsize) && b.DataSize() == old(b.DataSize())
    ensures var v := old(b.Line())[x].prop.value;
      b.Line() == WithValue(old(b.Line()), x, v[..at] + data + v[at + |data|..])
    ensures forall e: nat :: EvOff(b.ts, e) == old(EvOff(b.ts, e))
  {
    hide *;
    Known(b);
    ghost var ts, tail, strs, s, es := b.ts, b.tail, b.Strings(), b.Struct(), b.Line();
    ghost var j, w := Tok(ts, x), es[x].prop.value;
    PropToken(ts, strs, x);
    PropHere(ts, tail, j);
    b.WriteStruct(prop + 12 + at, data);
    ghost var u := b.Struct();
    OverwrittenBytes(s, u, prop, |w|, at, data);
    ghost var p := ReplacedProp(ts, tail, strs, s, u, x, |w|);
    ValueChanged(es, x, p.value);
    b.ts := Edited(ts, j, j + 1, [p]);
    PropSizes(ts[j], p);
    EditedAt(ts, j, j + 1, p);
    forall e: nat
      ensures EvOff(b.ts, e) == EvOff(ts, e)
    {
      SameSize(ts, j, p, e);
    }
    NowValid(b);
  }

  lemma PropSizes(t: Token, p: Token)
    requires t.Prop? && p.Prop? && Wf(t) && Wf(p) && |t.value| == |p.value|
    ensures |Bytes(p)| == |Bytes(t)|
  {
    PropSize(p);
    PropSize(t);
  }

  lemma OverwrittenBytes(s: seq<Byte>, u: seq<Byte>, o: nat, len: nat, at: nat, data: seq<Byte>)
    requires Written(s, u, o + 12 + at, data) && at + |data| <= len && o + 12 + Align4(len) <= |s|
    ensures Around(s, u, o, o + 12 + Align4(len), 12 + Align4(len)) && o + 12 + Align4(len) <= |u|
    ensures u[o..o + 4] == s[o..o + 4] && u[o + 4..o + 8] == s[o + 4..o + 8] && u[o + 8..o + 12] == s[o + 8..o + 12]
    ensures o + 12 + len <= |s|
      && u[o + 12..o + 12 + len] == s[o + 12..o + 12 + len][..at] + data + s[o + 12..o + 12 + len][at + |data|..]
  {
    hide *;
    var p := o + 12 + at;
    AroundSelf(s, o, o + 12 + Align4(len));
    AroundWritten(s, s, u, p, data, o, o + 12 + Align4(len), 12 + Align4(len));
    AroundFacts(s, u, o, o + 12 + Align4(len), 12 + Align4(len));
    WrittenElsewhere(s, u, p, data, o, o + 4);
    WrittenElsewhere(s, u, p, data, o + 4, o + 8);
    WrittenElsewhere(s, u, p, data, o + 8, o + 12);
    WrittenElsewhere(s, u, p, data, o + 12, p);
    WrittenElsewhere(s, u, p, data, p + |data|, o + 12 + len);
    WrittenHere(s, u, p, data);
    Slice(s, o + 12, o + 12 + len, 0, at);
    Slice(s, o + 12, o + 12 + len, at + |data|, len);
    CutInThree(u, o + 12, p, p + |data|, o + 12 + len);
  }

  lemma AroundSelf(s: seq<Byte>, o: nat, o1: nat)
    requires o <= o1 <= |s|
    ensures Around(s, s, o, o1, o1 - o)
  {}

  lemma CutInThree(u: seq<Byte>, a: nat, b: nat, c: nat, d: nat)
    requires a <= b <= c <= d <= |u|
    ensures u[a..d] == u[a..b] + u[b..c] + u[c..d]
  {}
}
