/** The structure block of a flattened device tree (version 17): tokens, their bytes, and the step from tag to tag. */
module DtFormat {

  type Byte = x: int | 0 <= x < 256
  const WORD: int := 0x1_0000_0000
  type U32 = x: int | 0 <= x < 0x1_0000_0000

  const BEGIN_NODE: U32 := 1
  const END_NODE: U32 := 2
  const PROP: U32 := 3
  const NOP: U32 := 4
  const END: U32 := 9

  const ERR_NOTFOUND: int := 1
  const ERR_EXISTS: int := 2
  const ERR_NOSPACE: int := 3
  const ERR_BADOFFSET: int := 4
  const ERR_TRUNCATED: int := 8
  const ERR_BADSTRUCTURE: int := 11

  // ---------- words ----------

  /** A 32-bit word, most significant byte first. */
  function PutU32(v: U32): (s: seq<Byte>)
    ensures |s| == 4
  {
    var w: int := v;
    var a, b, c := w / 256, w / 256 / 256, w / 256 / 256 / 256;
    [c, b % 256, a % 256, w % 256]
  }

  function GetU32(s: seq<Byte>, i: nat): U32
    requires i + 4 <= |s|
  {
    var a: int, b: int, c: int, d: int := s[i], s[i + 1], s[i + 2], s[i + 3];
    a * 0x100_0000 + b * 0x1_0000 + c * 0x100 + d
  }

  /** A word is its bytes in order, the first with the highest weight. */
  lemma WordBytes(a: Byte, b: Byte, c: Byte, d: Byte)
    ensures 0 <= 0x100_0000 * a + 0x1_0000 * b + 0x100 * c + d < WORD
    ensures PutU32(0x100_0000 * a + 0x1_0000 * b + 0x100 * c + d) == [a, b, c, d]
    ensures GetU32([a, b, c, d], 0) == 0x100_0000 * a + 0x1_0000 * b + 0x100 * c + d
  {
    Digits(a, b, c, d);
  }

  function AsciiCode(c: char): Byte {
    if c as int < 128 then c as int else 0
  }

  /** A text as its bytes in ASCII. */
  ghost function Ascii(text: string): (s: seq<Byte>)
    requires forall c :: c in text ==> c as int < 128
    ensures |s| == |text|
  {
    seq(|text|, i requires 0 <= i < |text| => AsciiCode(text[i]))
  }

  lemma GetPut(v: U32, s: seq<Byte>, i: nat)
    requires i + 4 <= |s| && s[i..i + 4] == PutU32(v)
    ensures GetU32(s, i) == v
  {
    var w := s[i..i + 4];
    assert w[0] == s[i] && w[1] == s[i + 1] && w[2] == s[i + 2] && w[3] == s[i + 3];
  }

  /** Four bytes are what their word is written as. */
  lemma PutGet(v: seq<Byte>, at: nat)
    requires at + 4 <= |v|
    ensures PutU32(GetU32(v, at)) == v[at..at + 4]
  {
    var a: int, b: int, c: int, d: int := v[at], v[at + 1], v[at + 2], v[at + 3];
    Digits(a, b, c, d);
  }

  lemma Digits(a: nat, b: nat, c: nat, d: nat)
    requires a < 256 && b < 256 && c < 256 && d < 256
    ensures var w := a * 0x100_0000 + b * 0x1_0000 + c * 0x100 + d;
      w / 256 / 256 / 256 == a && (w / 256 / 256) % 256 == b && (w / 256) % 256 == c && w % 256 == d
  {}

  predicate Aligned(n: int) {
    n % 4 == 0
  }

  function Align4(n: int): (r: int)
    ensures n <= r < n + 4 && Aligned(r)
  {
    (n + 3) / 4 * 4
  }

  lemma AlignedSum(m: int, n: int)
    requires Aligned(m)
    ensures Aligned(m + n) <==> Aligned(n)
  {}

  lemma AlignShift(o: int, n: int)
    requires Aligned(o)
    ensures Align4(o + n) == o + Align4(n)
  {}

  lemma AlignedFour(o: int)
    requires Aligned(o)
    ensures Aligned(o + 4) && Aligned(o + 12)
  {}

  lemma AlignAfter(o: int, len: int, n: int)
    requires Aligned(o) && n == o + 4 + len
    ensures Align4(n + 1) == o + 4 + Align4(len + 1)
  {
    AlignedFour(o);
    AlignShift(o + 4, len + 1);
  }

  lemma FourIsAligned()
    ensures Align4(4) == 4
  {}

  // ---------- tokens ----------

  /** Padding is part of a token, since nothing fixes what the padding bytes are. */
  datatype Token =
    | BeginNode(name: seq<Byte>, pad: seq<Byte>)
    | EndNode
    | Prop(nameoff: U32, value: seq<Byte>, pad: seq<Byte>)
    | Nop

  ghost predicate Wf(t: Token) {
    match t
    case BeginNode(name, pad) => 0 !in name && |pad| == Align4(|name| + 1) - (|name| + 1)
    case Prop(_, value, pad) => |value| < 0x8000_0000 && |pad| == Align4(|value|) - |value|
    case _ => true
  }

  function Tag(t: Token): U32 {
    match t
    case BeginNode(_, _) => BEGIN_NODE
    case EndNode => END_NODE
    case Prop(_, _, _) => PROP
    case Nop => NOP
  }

  ghost function Body(t: Token): seq<Byte>
    requires Wf(t)
  {
    match t
    case BeginNode(name, pad) => name + [0] + pad
    case Prop(nameoff, value, pad) => PutU32(|value|) + PutU32(nameoff) + value + pad
    case _ => []
  }

  ghost function Bytes(t: Token): (s: seq<Byte>)
    requires Wf(t)
    ensures |s| >= 4
  {
    PutU32(Tag(t)) + Body(t)
  }

  lemma BytesAligned(t: Token)
    requires Wf(t)
    ensures Aligned(|Bytes(t)|)
  {
    AlignedSum(4, 0);
    AlignedSum(4, |Body(t)|);
    match t
    case BeginNode(name, pad) =>
    case Prop(_, value, _) => AlignedSum(8, Align4(|value|)); EightAligned();
    case _ =>
  }

  lemma EightAligned()
    ensures Aligned(4) && Aligned(8) && Aligned(0)
  {}

  ghost predicate AllWf(ts: seq<Token>) {
    forall t :: t in ts ==> Wf(t)
  }

  ghost function Encode(ts: seq<Token>): seq<Byte>
    requires AllWf(ts)
  {
    if ts == [] then [] else Bytes(ts[0]) + Encode(ts[1..])
  }

  lemma {:induction false} EncodeConcat(a: seq<Token>, b: seq<Token>)
    requires AllWf(a) && AllWf(b)
    ensures AllWf(a + b) && Encode(a + b) == Encode(a) + Encode(b)
  {
    hide Bytes, Wf;
    if a == [] {
      assert a + b == b;
    } else {
      assert (a + b)[0] == a[0] && (a + b)[1..] == a[1..] + b;
      EncodeConcat(a[1..], b);
      assert Bytes(a[0]) + (Encode(a[1..]) + Encode(b)) == Bytes(a[0]) + Encode(a[1..]) + Encode(b);
    }
  }

  /** Where token k begins. */
  ghost function Off(ts: seq<Token>, k: nat): nat
    requires AllWf(ts) && k <= |ts|
  {
    |Encode(ts[..k])|
  }

  lemma EncodeOne(t: Token)
    requires Wf(t)
    ensures Encode([t]) == Bytes(t)
  {
    assert [t][1..] == [];
  }

  lemma AllWfParts(ts: seq<Token>, k: nat)
    requires AllWf(ts) && k < |ts|
    ensures AllWf(ts[..k]) && AllWf([ts[k]]) && AllWf(ts[k + 1..]) && AllWf([ts[k]] + ts[k + 1..])
  {}

  lemma EncodeAt(ts: seq<Token>, k: nat)
    requires AllWf(ts) && k < |ts|
    ensures AllWf(ts[..k]) && Wf(ts[k]) && AllWf(ts[k + 1..])
    ensures Encode(ts) == Encode(ts[..k]) + (Bytes(ts[k]) + Encode(ts[k + 1..]))
    ensures Off(ts, k + 1) == Off(ts, k) + |Bytes(ts[k])|
  {
    AllWfParts(ts, k);
    hide Encode, Bytes, Wf, AllWf;
    assert ts == ts[..k] + ([ts[k]] + ts[k + 1..]);
    EncodeConcat(ts[..k], [ts[k]] + ts[k + 1..]);
    EncodeConcat([ts[k]], ts[k + 1..]);
    EncodeOne(ts[k]);
    assert ts[..k + 1] == ts[..k] + [ts[k]];
    EncodeConcat(ts[..k], [ts[k]]);
  }

  lemma {:induction false} EncodeAligned(ts: seq<Token>)
    requires AllWf(ts)
    ensures Aligned(|Encode(ts)|)
  {
    if ts == [] {
      EightAligned();
    } else {
      BytesAligned(ts[0]);
      EncodeAligned(ts[1..]);
      AlignedSum(|Bytes(ts[0])|, |Encode(ts[1..])|);
    }
  }

  lemma OffAligned(ts: seq<Token>, k: nat)
    requires AllWf(ts) && k <= |ts|
    ensures Aligned(Off(ts, k))
  {
    EncodeAligned(ts[..k]);
  }

  /** A structure block: its tokens, the end tag, and whatever lies behind it. */
  ghost function Block(ts: seq<Token>, tail: seq<Byte>): seq<Byte>
    requires AllWf(ts)
  {
    Encode(ts) + PutU32(END) + tail
  }

  lemma BlockAt(ts: seq<Token>, tail: seq<Byte>, k: nat)
    requires AllWf(ts) && k < |ts|
    ensures var s, o := Block(ts, tail), Off(ts, k);
      o + |Bytes(ts[k])| <= |s| && s[o..o + |Bytes(ts[k])|] == Bytes(ts[k])
    ensures Off(ts, k + 1) == Off(ts, k) + |Bytes(ts[k])|
  {
    EncodeAt(ts, k);
    hide Encode, Bytes, Wf, AllWf;
  }

  lemma BlockEnd(ts: seq<Token>, tail: seq<Byte>)
    requires AllWf(ts)
    ensures var s, o := Block(ts, tail), Off(ts, |ts|);
      o + 4 <= |s| && s[o..o + 4] == PutU32(END) && o == |Encode(ts)|
  {
    assert ts[..|ts|] == ts;
  }

  // ---------- from tag to tag ----------

  /** The first zero byte at or after i, or the length if there is none. */
  ghost function NulAt(s: seq<Byte>, i: nat): (n: nat)
    requires i <= |s|
    ensures i <= n <= |s| && (n < |s| ==> s[n] == 0) && 0 !in s[i..n]
    decreases |s| - i
  {
    if i == |s| || s[i] == 0 then i
    else assert s[i..NulAt(s, i + 1)] == [s[i]] + s[i + 1..NulAt(s, i + 1)]; NulAt(s, i + 1)
  }

  /** The length of a property token: the sum is taken in 32 bits. */
  function Span(len: U32): U32 {
    (12 + len) % WORD
  }

  /** Tag at an offset and offset of the next one; a negative offset is an error. */
  ghost function NextTag(s: seq<Byte>, o: int): (U32, int) {
    if o < 0 || o + 4 > |s| then (END, -ERR_TRUNCATED)
    else
      var tag := GetU32(s, o);
      if tag == BEGIN_NODE then
        var n := NulAt(s, o + 4);
        if n == |s| then (END, -ERR_BADSTRUCTURE) else (tag, Align4(n + 1))
      else if tag == PROP then
        if o + 8 > |s| then (END, -ERR_BADSTRUCTURE)
        else
          var end := o + Span(GetU32(s, o + 4));
          if end > |s| then (END, -ERR_BADSTRUCTURE) else (tag, Align4(end))
      else if tag == END_NODE || tag == NOP || tag == END then (tag, Align4(o + 4))
      else (END, -ERR_BADSTRUCTURE)
  }

  /** A step either fails or moves forward, except over a property whose length word is 2^32 - 12. */
  lemma NextTagAdvances(s: seq<Byte>, o: nat)
    ensures NextTag(s, o).1 >= 0 ==>
      (NextTag(s, o).1 > o <==> !(GetU32(s, o) == PROP && GetU32(s, o + 4) == WORD - 12 && o % 4 == 0))
  {}

  lemma Among(s: seq<Byte>, i: nat, n: nat, m: nat)
    requires i <= m < n <= |s|
    ensures s[m] in s[i..n]
  {
    assert s[m] == s[i..n][m - i];
  }

  lemma NulFound(s: seq<Byte>, i: nat, n: nat)
    requires i <= n < |s| && 0 !in s[i..n] && s[n] == 0
    ensures NulAt(s, i) == n
  {
    var m := NulAt(s, i);
    if m < n { Among(s, i, n, m); }
    if n < m { Among(s, i, m, n); }
  }

  /** At the start of a token the step reads its tag and lands on the next token. */
  lemma NextTagAt(ts: seq<Token>, tail: seq<Byte>, k: nat)
    requires AllWf(ts) && k < |ts|
    ensures NextTag(Block(ts, tail), Off(ts, k)) == (Tag(ts[k]), Off(ts, k + 1))
  {
    hide *;
    AllWfAt(ts, k);
    BlockAt(ts, tail, k);
    OffAligned(ts, k);
    StepOver(Block(ts, tail), Off(ts, k), ts[k]);
  }

  lemma AllWfAt(ts: seq<Token>, k: nat)
    requires AllWf(ts) && k < |ts|
    ensures Wf(ts[k])
  {}

  lemma StepOver(s: seq<Byte>, o: nat, t: Token)
    requires Wf(t) && Aligned(o) && o + |Bytes(t)| <= |s| && s[o..o + |Bytes(t)|] == Bytes(t)
    ensures NextTag(s, o) == (Tag(t), o + |Bytes(t)|)
  {
    hide Bytes, Body, NextTag, Aligned;
    match t
    case BeginNode(name, pad) => NameStep(s, o, name, pad);
    case Prop(nameoff, value, pad) => PropStep(s, o, nameoff, value, pad);
    case _ => PlainStep(s, o, t);
  }

  lemma Sub(s: seq<Byte>, o: nat, b: seq<Byte>, i: nat, j: nat)
    requires i <= j <= |b| && o + |b| <= |s| && s[o..o + |b|] == b
    ensures s[o + i..o + j] == b[i..j]
  {
    forall k | 0 <= k < j - i
      ensures s[o + i..o + j][k] == b[i..j][k]
    {
      assert s[o..o + |b|][i + k] == b[i + k];
    }
  }

  /** The tag, then the name with its zero. */
  ghost predicate Opens(b: seq<Byte>, name: seq<Byte>) {
    4 + |name| < |b| && b[0..4] == PutU32(BEGIN_NODE) && b[4..4 + |name|] == name && b[4 + |name|] == 0
  }

  lemma OpensTag(b: seq<Byte>, name: seq<Byte>)
    requires Opens(b, name)
    ensures |b| > 4 && b[0..4] == PutU32(BEGIN_NODE)
  {}

  lemma NameLayout(name: seq<Byte>, pad: seq<Byte>)
    requires Wf(BeginNode(name, pad))
    ensures var b := Bytes(BeginNode(name, pad)); |b| == 4 + Align4(|name| + 1) && 4 + |name| < |b| && Opens(b, name)
  {
    hide PutU32, Aligned, Align4;
    assert Bytes(BeginNode(name, pad)) == PutU32(BEGIN_NODE) + name + [0] + pad;
  }

  lemma PropLayout(nameoff: U32, value: seq<Byte>, pad: seq<Byte>)
    requires Wf(Prop(nameoff, value, pad))
    ensures var b := Bytes(Prop(nameoff, value, pad));
      && |b| == 12 + Align4(|value|)
      && b[0..4] == PutU32(PROP) && b[4..8] == PutU32(|value|) && b[8..12] == PutU32(nameoff)
      && b[12..12 + |value|] == value
  {
    hide PutU32, Aligned, Align4;
    assert Bytes(Prop(nameoff, value, pad)) == PutU32(PROP) + PutU32(|value|) + PutU32(nameoff) + value + pad;
  }

  lemma NameStep(s: seq<Byte>, o: nat, name: seq<Byte>, pad: seq<Byte>)
    requires var t := BeginNode(name, pad);
      Wf(t) && Aligned(o) && o + |Bytes(t)| <= |s| && s[o..o + |Bytes(t)|] == Bytes(t)
    ensures NextTag(s, o) == (BEGIN_NODE, o + |Bytes(BeginNode(name, pad))|)
    ensures o + 4 + |name| < |s| && NulAt(s, o + 4) == o + 4 + |name| && s[o + 4..o + 4 + |name|] == name
  {
    hide *;
    NameWhole(s, o, name, pad, Bytes(BeginNode(name, pad)));
    NameTag(s, o, |name|);
  }

  lemma NameWhole(s: seq<Byte>, o: nat, name: seq<Byte>, pad: seq<Byte>, b: seq<Byte>)
    requires Wf(BeginNode(name, pad)) && b == Bytes(BeginNode(name, pad)) && o + |b| <= |s| && s[o..o + |b|] == b
    ensures |b| == 4 + Align4(|name| + 1) && o + 4 + |name| < |s|
    ensures GetU32(s, o) == BEGIN_NODE && NulAt(s, o + 4) == o + 4 + |name| && s[o + 4..o + 4 + |name|] == name
  {
    hide *;
    NameLayout(name, pad);
    NameClean(name, pad);
    NameRead(s, o, b, name);
  }

  lemma NameClean(name: seq<Byte>, pad: seq<Byte>)
    requires Wf(BeginNode(name, pad))
    ensures 0 !in name
  {}

  lemma NameRead(s: seq<Byte>, o: nat, b: seq<Byte>, name: seq<Byte>)
    requires o + |b| <= |s| && s[o..o + |b|] == b && 0 !in name && Opens(b, name)
    ensures o + 4 + |name| < |s| && s[o + 4..o + 4 + |name|] == name
    ensures GetU32(s, o) == BEGIN_NODE && NulAt(s, o + 4) == o + 4 + |name|
  {
    hide Bytes, Encode, PutU32, GetU32, NulAt, BEGIN_NODE;
    Sub(s, o, b, 0, 4);
    GetPut(BEGIN_NODE, s, o);
    Sub(s, o, b, 4, 4 + |name|);
    assert s[o + 4 + |name|] == s[o..o + |b|][4 + |name|];
    NulFound(s, o + 4, o + 4 + |name|);
  }

  lemma NextTagName(s: seq<Byte>, o: nat, n: nat)
    requires o + 4 <= n < |s| && GetU32(s, o) == BEGIN_NODE && NulAt(s, o + 4) == n
    ensures NextTag(s, o) == (BEGIN_NODE, Align4(n + 1))
  {}

  lemma NameTag(s: seq<Byte>, o: nat, len: nat)
    requires Aligned(o) && o + 4 + len < |s| && GetU32(s, o) == BEGIN_NODE && NulAt(s, o + 4) == o + 4 + len
    ensures NextTag(s, o) == (BEGIN_NODE, o + (4 + Align4(len + 1)))
  {
    hide *;
    NextTagName(s, o, o + 4 + len);
    AlignAfter(o, len, o + 4 + len);
  }

  lemma NextTagProp(s: seq<Byte>, o: nat, len: U32)
    requires o + 12 + len <= |s| && len < 0x8000_0000 && GetU32(s, o) == PROP && GetU32(s, o + 4) == len
    ensures NextTag(s, o) == (PROP, Align4(o + 12 + len))
  {}

  lemma NextTagPlain(s: seq<Byte>, o: nat, tag: U32)
    requires o + 4 <= |s| && GetU32(s, o) == tag && (tag == END_NODE || tag == NOP || tag == END)
    ensures NextTag(s, o) == (tag, Align4(o + 4))
  {}

  lemma ValueFits(nameoff: U32, value: seq<Byte>, pad: seq<Byte>)
    requires Wf(Prop(nameoff, value, pad))
    ensures |value| < 0x8000_0000
  {}

  lemma PropRead(s: seq<Byte>, o: nat, b: seq<Byte>, nameoff: U32, value: seq<Byte>)
    requires o + |b| <= |s| && s[o..o + |b|] == b && 12 + |value| <= |b| && |value| < 0x8000_0000
    requires b[0..4] == PutU32(PROP) && b[4..8] == PutU32(|value|) && b[8..12] == PutU32(nameoff)
    requires b[12..12 + |value|] == value
    ensures GetU32(s, o) == PROP && GetU32(s, o + 4) == |value| && GetU32(s, o + 8) == nameoff
    ensures s[o + 12..o + 12 + |value|] == value
  {
    hide *;
    Sub(s, o, b, 0, 4);
    GetPut(PROP, s, o);
    Sub(s, o, b, 4, 8);
    GetPut(|value|, s, o + 4);
    Sub(s, o, b, 8, 12);
    GetPut(nameoff, s, o + 8);
    Sub(s, o, b, 12, 12 + |value|);
  }

  lemma PropStep(s: seq<Byte>, o: nat, nameoff: U32, value: seq<Byte>, pad: seq<Byte>)
    requires var t := Prop(nameoff, value, pad);
      Wf(t) && Aligned(o) && o + |Bytes(t)| <= |s| && s[o..o + |Bytes(t)|] == Bytes(t)
    ensures NextTag(s, o) == (PROP, o + |Bytes(Prop(nameoff, value, pad))|)
    ensures o + 12 + |value| <= |s| && GetU32(s, o + 4) == |value| && GetU32(s, o + 8) == nameoff
    ensures s[o + 12..o + 12 + |value|] == value
  {
    hide *;
    PropLayout(nameoff, value, pad);
    ValueFits(nameoff, value, pad);
    PropRead(s, o, Bytes(Prop(nameoff, value, pad)), nameoff, value);
    NextTagProp(s, o, |value|);
    AlignedFour(o);
    AlignShift(o + 12, |value|);
  }

  lemma PlainStep(s: seq<Byte>, o: nat, t: Token)
    requires (t.EndNode? || t.Nop?) && Aligned(o) && o + 4 <= |s| && s[o..o + |Bytes(t)|] == Bytes(t)
    ensures NextTag(s, o) == (Tag(t), o + |Bytes(t)|)
  {
    assert Bytes(t) == PutU32(Tag(t));
    hide *;
    GetPut(Tag(t), s, o);
    TagOf(t);
    NextTagPlain(s, o, Tag(t));
    AlignShift(o, 4);
    FourIsAligned();
  }

  lemma TagOf(t: Token)
    ensures t.EndNode? ==> Tag(t) == END_NODE
    ensures t.Nop? ==> Tag(t) == NOP
  {}

  lemma NextTagEnd(ts: seq<Token>, tail: seq<Byte>)
    requires AllWf(ts)
    ensures NextTag(Block(ts, tail), Off(ts, |ts|)) == (END, Off(ts, |ts|) + 4)
  {
    BlockEnd(ts, tail);
    OffAligned(ts, |ts|);
    hide *;
    GetPut(END, Block(ts, tail), Off(ts, |ts|));
    NextTagPlain(Block(ts, tail), Off(ts, |ts|), END);
    AlignShift(Off(ts, |ts|), 4);
    FourIsAligned();
  }

  // ---------- strings ----------

  /** A name of the strings block: in bounds and ended by a zero byte. */
  ghost predicate HasString(strs: seq<Byte>, o: int) {
    0 <= o < |strs| && NulAt(strs, o) < |strs|
  }

  ghost function StringAt(strs: seq<Byte>, o: nat): seq<Byte>
    requires o <= |strs|
  {
    strs[o..NulAt(strs, o)]
  }

  /** Strings behind the last one leave the earlier ones alone. */
  lemma MoreStrings(strs: seq<Byte>, more: seq<Byte>, o: nat)
    requires HasString(strs, o)
    ensures HasString(strs + more, o) && StringAt(strs + more, o) == StringAt(strs, o)
  {
    var n := NulAt(strs, o);
    var s := strs + more;
    assert s[o..n] == strs[o..n];
    NulFound(s, o, n);
  }

  lemma NewString(strs: seq<Byte>, name: seq<Byte>)
    requires 0 !in name
    ensures HasString(strs + name + [0], |strs|) && StringAt(strs + name + [0], |strs|) == name
  {
    var s := strs + name + [0];
    assert s[|strs|..|strs| + |name|] == name;
    NulFound(s, |strs|, |strs| + |name|);
  }

  ghost predicate NamesOk(ts: seq<Token>, strs: seq<Byte>) {
    forall t :: t in ts && t.Prop? ==> HasString(strs, t.nameoff)
  }

  /** A root with the one-byte property named at offset 16, as bytes. */
  lemma SampleBlock()
    ensures
      var ts := [BeginNode([], [0, 0, 0]), Prop(16, [7], [0, 0, 0]), EndNode];
      && AllWf(ts)
      && Encode(ts) + PutU32(END) ==
        [0, 0, 0, 1, 0, 0, 0, 0]
        + [0, 0, 0, 3, 0, 0, 0, 1, 0, 0, 0, 16, 7, 0, 0, 0]
        + [0, 0, 0, 2] + [0, 0, 0, 9]
  {
    var a, b, c := BeginNode([], [0, 0, 0]), Prop(16, [7], [0, 0, 0]), EndNode;
    SampleTokens();
    hide *;
    EncodeConcat([a, b], [c]);
    EncodeConcat([a], [b]);
    EncodeOne(a);
    EncodeOne(b);
    EncodeOne(c);
    assert [a] + [b] == [a, b] && [a, b] + [c] == [a, b, c];
  }

  lemma SampleTokens()
    ensures
      var a, b, c := BeginNode([], [0, 0, 0]), Prop(16, [7], [0, 0, 0]), EndNode;
      && AllWf([a, b]) && AllWf([a]) && AllWf([b]) && AllWf([c]) && AllWf([a, b, c]) && Wf(a) && Wf(b) && Wf(c)
      && Bytes(a) == [0, 0, 0, 1, 0, 0, 0, 0]
      && Bytes(b) == [0, 0, 0, 3, 0, 0, 0, 1, 0, 0, 0, 16, 7, 0, 0, 0]
      && Bytes(c) == [0, 0, 0, 2] && PutU32(END) == [0, 0, 0, 9]
  {
    WordBytes(0, 0, 0, 2);
    WordBytes(0, 0, 0, 9);
    SampleBegin();
    SampleProp();
    hide PutU32, Wf;
  }

  lemma SampleBegin()
    ensures Wf(BeginNode([], [0, 0, 0])) && Bytes(BeginNode([], [0, 0, 0])) == [0, 0, 0, 1, 0, 0, 0, 0] && Wf(EndNode)
  {
    WordBytes(0, 0, 0, 1);
    hide PutU32;
  }

  lemma SampleProp()
    ensures Wf(Prop(16, [7], [0, 0, 0]))
    ensures Bytes(Prop(16, [7], [0, 0, 0])) == [0, 0, 0, 3, 0, 0, 0, 1, 0, 0, 0, 16, 7, 0, 0, 0]
  {
    WordBytes(0, 0, 0, 1);
    WordBytes(0, 0, 0, 3);
    WordBytes(0, 0, 0, 16);
    hide PutU32;
  }
}
