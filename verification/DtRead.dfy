/** Reading a device tree: walking nodes, listing properties, looking up names. */
module DtRead {
  import opened DtFormat
  import opened DtTree
  import opened DtEvents
  import opened DtBlob

  // ---------- a place among the tokens and its place in the line of events ----------

  ghost predicate Cursor(ts: seq<Token>, strs: seq<Byte>, j: nat, c: nat) {
    j <= |ts| && NamesOk(ts, strs) && NamesOk(ts[..j], strs) && c == |Events(ts[..j], strs)| && c <= |Events(ts, strs)|
  }

  lemma CursorStart(ts: seq<Token>, strs: seq<Byte>)
    requires NamesOk(ts, strs)
    ensures Cursor(ts, strs, 0, 0)
  {
    assert ts[..0] == [];
  }

  lemma CursorBehind(ts: seq<Token>, strs: seq<Byte>, i: nat)
    requires NamesOk(ts, strs) && i < |Events(ts, strs)|
    ensures Tok(ts, i) < |ts| && Cursor(ts, strs, Tok(ts, i), i) && Cursor(ts, strs, Tok(ts, i) + 1, i + 1)
    ensures !ts[Tok(ts, i)].Nop? && (ts[Tok(ts, i)].Prop? ==> HasString(strs, ts[Tok(ts, i)].nameoff))
    ensures Events(ts, strs)[i] == Ev(ts[Tok(ts, i)], strs)
  {
    TokAt(ts, strs, i);
    CountStep(ts, strs, Tok(ts, i));
  }

  lemma CursorStep(ts: seq<Token>, strs: seq<Byte>, j: nat, c: nat)
    requires Cursor(ts, strs, j, c) && j < |ts|
    ensures Cursor(ts, strs, j + 1, if ts[j].Nop? then c else c + 1)
    ensures ts[j].Prop? ==> HasString(strs, ts[j].nameoff)
    ensures !ts[j].Nop? ==> c < |Events(ts, strs)| && Tok(ts, c) == j && Events(ts, strs)[c] == Ev(ts[j], strs)
  {
    CountStep(ts, strs, j);
    if ts[j].Nop? {
      EventsUpTo(ts, strs, j + 1);
    } else {
      TokOf(ts, strs, j);
      TokAt(ts, strs, c);
    }
  }

  lemma EventsUpTo(ts: seq<Token>, strs: seq<Byte>, j: nat)
    requires NamesOk(ts, strs) && j <= |ts|
    ensures NamesOk(ts[..j], strs) && |Events(ts[..j], strs)| <= |Events(ts, strs)|
  {
    assert ts == ts[..j] + ts[j..];
    NamesOkParts(ts[..j], ts[j..], strs);
    EventsConcat(ts[..j], ts[j..], strs);
  }

  lemma CursorEnd(ts: seq<Token>, strs: seq<Byte>, c: nat)
    requires Cursor(ts, strs, |ts|, c)
    ensures c == |Events(ts, strs)|
  {
    assert ts[..|ts|] == ts;
  }

  lemma LevelStep(es: seq<Event>, c: nat)
    requires c < |es|
    ensures Level(es, c + 1) == Level(es, c) + Delta(es[c])
  {}

  /** What validity says, for proofs that need no more of it. */
  lemma Known(b: Blob)
    requires b.Valid()
    ensures AllWf(b.ts) && b.Layout() && NamesOk(b.ts, b.Strings()) && b.Line() == Events(b.ts, b.Strings())
    ensures b.Struct() == Block(b.ts, b.tail) && |b.Struct()| == b.sizeStruct
  {}

  lemma TagsDiffer()
    ensures WORD == 0x1_0000_0000 && BEGIN_NODE == 1 && END_NODE == 2 && PROP == 3 && NOP == 4 && END == 9
    ensures ERR_NOTFOUND == 1 && ERR_EXISTS == 2 && ERR_NOSPACE == 3 && ERR_BADOFFSET == 4 && ERR_TRUNCATED == 8
      && ERR_BADSTRUCTURE == 11
  {}

  lemma CursorBounds(ts: seq<Token>, strs: seq<Byte>, j: nat, c: nat)
    requires Cursor(ts, strs, j, c)
    ensures j <= |ts| && NamesOk(ts, strs) && c <= |Events(ts, strs)|
  {}

  /** What the next tag is, at any token boundary. */
  method TagHere(b: Blob, o: int, ghost j: nat) returns (tag: U32, next: int)
    requires b.Valid() && j <= |b.ts| && o == Off(b.ts, j)
    ensures j < |b.ts| ==> tag == Tag(b.ts[j]) && next == Off(b.ts, j + 1)
    ensures j == |b.ts| ==> tag == END && next >= 0
    ensures o + 4 <= b.sizeStruct
  {
    if j < |b.ts| {
      NextTagAt(b.ts, b.tail, j);
      BlockAt(b.ts, b.tail, j);
    } else {
      NextTagEnd(b.ts, b.tail);
      BlockEnd(b.ts, b.tail);
    }
    hide Block, Off, DtFormat.NextTag;
    tag, next := b.NextTag(o);
  }

  /** The depth a walk starts with: before the first event nothing has been entered, not even the root. */
  ghost function BaseLevel(es: seq<Event>, i: int): int
    requires -1 <= i < |es|
  {
    if i < 0 then -1 else Level(es, i)
  }

  /** Between a node and the next stop no other node begins, and the walk does not leave the level it is bounded by. */
  ghost predicate NoStop(es: seq<Event>, i: int, c: nat, tracked: bool, depth: int)
    requires -1 <= i < |es|
  {
    && i < c <= |es|
    && (forall x :: i < x < c ==> !es[x].Enter?)
    && (tracked ==> forall x :: i < x <= c ==> depth + Level(es, x) - BaseLevel(es, i) >= 1)
  }

  datatype Stop = AtNode | Past | Nowhere

  /**
    Where a walk from event i ends: at a node, behind the end of the level it is bounded by, or at the end of the
    line.
  */
  ghost predicate Reached(es: seq<Event>, ts: seq<Token>, i: int, tracked: bool, depth: int, r: int, d: int, at: nat,
          stop: Stop)
    requires -1 <= i < |es| && AllWf(ts)
  {
    i < at <= |es| &&
    match stop
    case AtNode =>
      && at < |es| && es[at].Enter? && NoStop(es, i, at, tracked, depth) && r == EvOff(ts, at)
      && (tracked ==> d == depth + Level(es, at) - BaseLevel(es, i) && d >= 0)
    case Past =>
      && tracked && d < 0 && i + 1 < at && es[at - 1].Leave? && NoStop(es, i, at - 1, tracked, depth)
      && r == EvEnd(ts, at - 1) && depth + Level(es, at) == BaseLevel(es, i)
    case Nowhere => r == -ERR_NOTFOUND && NoStop(es, i, |es|, tracked, depth)
  }

  /** The next node in the order of the line; with a depth given, the end of the enclosing level ends the walk. */
  method NextNode(b: Blob, offset: int, tracked: bool, depth: int, ghost i: int)
    returns (r: int, d: int, ghost at: nat, ghost stop: Stop)
    requires b.Valid() && -1 <= i < |b.Line()| && depth >= 0
    requires if offset < 0 then i == -1 else i >= 0 && b.Line()[i].Enter? && offset == EvOff(b.ts, i)
    ensures Reached(b.Line(), b.ts, i, tracked, depth, r, d, at, stop)
    ensures exists k, s :: Reached(b.Line(), b.ts, i, tracked, depth, r, d, k, s)
  {
    hide *;
    r, d, at, stop := NextStop(b, offset, tracked, depth, i);
  }

  /** The same, for a node or from the start; what it stopped at is the witness. */
  method NextStop(b: Blob, offset: int, tracked: bool, depth: int, ghost i: int)
    returns (r: int, d: int, ghost at: nat, ghost stop: Stop)
    requires b.Valid() && -1 <= i < |b.Line()| && depth >= 0
    requires if offset < 0 then i == -1 else i >= 0 && b.Line()[i].Enter? && offset == EvOff(b.ts, i)
    ensures Reached(b.Line(), b.ts, i, tracked, depth, r, d, at, stop)
  {
    ghost var ts, strs, es := b.ts, b.Strings(), b.Line();
    hide Events, Off, Ev, Level, Cursor, NamesOk, AllWf, Block, Tok, Tag, Reached;
    if offset >= 0 {
      NodeTag(ts, strs, i);
      CursorBehind(ts, strs, i);
      LevelStep(es, i);
      var next := CheckNodeOffset(b, offset, Tok(ts, i));
      r, d, at, stop := Walk(b, next, tracked, depth, i, Tok(ts, i) + 1, i + 1);
    } else {
      StartOff(ts);
      CursorStart(ts, strs);
      LevelZero(es);
      r, d, at, stop := Walk(b, 0, tracked, depth, i, 0, 0);
    }
  }

  /** The walk from tag to tag, starting behind event i. */
  method Walk(b: Blob, start: int, tracked: bool, depth: int, ghost i: int, ghost j0: nat, ghost c0: nat)
    returns (r: int, d: int, ghost at: nat, ghost stop: Stop)
    requires b.Valid() && -1 <= i < |b.Line()| && depth >= 0 && c0 == i + 1
    requires Cursor(b.ts, b.Strings(), j0, c0) && start == Off(b.ts, j0)
    requires Level(b.Line(), c0) == BaseLevel(b.Line(), i) + 1
    ensures Reached(b.Line(), b.ts, i, tracked, depth, r, d, at, stop)
  {
    hide *;
    Known(b);
    ghost var ts, strs, es := b.ts, b.Strings(), b.Line();
    CursorBounds(ts, strs, j0, c0);
    TagsDiffer();
    NoStopStart(es, i, tracked, depth);
    ghost var j, c, base := j0, c0, BaseLevel(es, i);
    var next := start;
    d := depth;
    while true
      invariant j <= |ts| && c <= |es| && Cursor(ts, strs, j, c) && next == Off(ts, j)
      invariant NoStop(es, i, c, tracked, depth)
      invariant tracked ==> d >= 0 && d == depth + Level(es, c) - base - 1
      decreases |ts| - j
    {
      var offset := next;
      var tag;
      tag, next := TagHere(b, offset, j);
      if tag == END {
        TagIsNotEnd(ts, j);
        CursorEnd(ts, strs, c);
        StopNowhere(es, ts, i, tracked, depth, d, c);
        return -ERR_NOTFOUND, d, c, Nowhere;
      }
      Advance(ts, strs, j, c, tag);
      CursorBounds(ts, strs, j + 1, if tag == NOP then c else c + 1);
      if tag == BEGIN_NODE {
        d := d + 1;
        StopAtNode(es, ts, i, tracked, depth, offset, d, c, j);
        return offset, d, c, AtNode;
      }
      if tag == END_NODE {
        d := d - 1;
        if tracked && d < 0 {
          StopPast(es, ts, i, depth, next, d, c, j);
          return next, d, c + 1, Past;
        }
      }
      if tag != NOP {
        NoStopNext(es, i, c, tracked, depth);
        c := c + 1;
      }
      j := j + 1;
    }
  }

  lemma StopNowhere(es: seq<Event>, ts: seq<Token>, i: int, tracked: bool, depth: int, d: int, c: nat)
    requires -1 <= i < |es| && AllWf(ts) && c == |es| && NoStop(es, i, c, tracked, depth)
    ensures Reached(es, ts, i, tracked, depth, -ERR_NOTFOUND, d, c, Nowhere)
  {}

  lemma StopAtNode(es: seq<Event>, ts: seq<Token>, i: int, tracked: bool, depth: int, r: int, d: int, c: nat, j: nat)
    requires -1 <= i < |es| && AllWf(ts) && c < |es| && es[c].Enter? && NoStop(es, i, c, tracked, depth)
    requires tracked ==> d == depth + Level(es, c) - BaseLevel(es, i) && d >= 0
    requires Tok(ts, c) == j && r == Off(ts, j)
    ensures Reached(es, ts, i, tracked, depth, r, d, c, AtNode)
  {}

  lemma StopPast(es: seq<Event>, ts: seq<Token>, i: int, depth: int, r: int, d: int, c: nat, j: nat)
    requires -1 <= i < |es| && AllWf(ts) && c < |es| && es[c].Leave? && NoStop(es, i, c, true, depth) && d < 0
    requires Tok(ts, c) == j < |ts| && depth + Level(es, c + 1) == BaseLevel(es, i) && r == Off(ts, j + 1)
    ensures Reached(es, ts, i, true, depth, r, d, c + 1, Past)
  {
    NoStopBounds(es, i, c, true, depth);
    EvEndIs(ts, c, j);
    hide *;
    ReachedPast(es, ts, i, depth, r, d, c);
  }

  lemma EvEndIs(ts: seq<Token>, i: nat, j: nat)
    requires AllWf(ts) && Tok(ts, i) == j < |ts|
    ensures EvEnd(ts, i) == Off(ts, j + 1)
  {}

  lemma ReachedPast(es: seq<Event>, ts: seq<Token>, i: int, depth: int, r: int, d: int, c: nat)
    requires -1 <= i < c < |es| && AllWf(ts) && es[c].Leave? && NoStop(es, i, c, true, depth) && d < 0
    requires depth + Level(es, c + 1) == BaseLevel(es, i) && r == EvEnd(ts, c)
    ensures Reached(es, ts, i, true, depth, r, d, c + 1, Past)
  {
    hide Level, NoStop, BaseLevel, AllWf, EvEnd;
  }

  lemma NoStopBounds(es: seq<Event>, i: int, c: nat, tracked: bool, depth: int)
    requires -1 <= i < |es| && NoStop(es, i, c, tracked, depth)
    ensures i < c <= |es|
  {}

  lemma NoStopStart(es: seq<Event>, i: int, tracked: bool, depth: int)
    requires -1 <= i < |es| && depth >= 0 && Level(es, i + 1) == BaseLevel(es, i) + 1
    ensures NoStop(es, i, i + 1, tracked, depth)
  {}

  lemma NoStopNext(es: seq<Event>, i: int, c: nat, tracked: bool, depth: int)
    requires -1 <= i < |es| && NoStop(es, i, c, tracked, depth) && c < |es| && !es[c].Enter?
    requires tracked ==> depth + Level(es, c + 1) - BaseLevel(es, i) >= 1
    ensures NoStop(es, i, c + 1, tracked, depth)
  {}

  /** One token further. */
  lemma Advance(ts: seq<Token>, strs: seq<Byte>, j: nat, c: nat, tag: U32)
    requires AllWf(ts) && Cursor(ts, strs, j, c) && j < |ts| && tag == Tag(ts[j])
    ensures tag == NOP || tag == BEGIN_NODE || tag == END_NODE || tag == PROP
    ensures Cursor(ts, strs, j + 1, if tag == NOP then c else c + 1)
    ensures tag != NOP ==> c < |Events(ts, strs)| && Tok(ts, c) == j
    ensures tag != NOP ==>
      Level(Events(ts, strs), c + 1) == Level(Events(ts, strs), c) + if tag == BEGIN_NODE then 1
      else if tag == END_NODE then -1 else 0
    ensures tag != NOP ==>
      (tag == BEGIN_NODE <==> Events(ts, strs)[c].Enter?) && (tag == END_NODE <==> Events(ts, strs)[c].Leave?)
      && (tag == PROP <==> Events(ts, strs)[c].Attr?)
  {
    CursorStep(ts, strs, j, c);
    TagMeans(ts, strs, j, c);
    hide Events, Cursor, Tok;
  }

  lemma StartOff(ts: seq<Token>)
    requires AllWf(ts)
    ensures Off(ts, 0) == 0
  {}

  lemma LevelZero(es: seq<Event>)
    ensures Level(es, 0) == 0
  {}

  lemma NodeTag(ts: seq<Token>, strs: seq<Byte>, i: nat)
    requires AllWf(ts) && NamesOk(ts, strs) && i < |Events(ts, strs)| && Events(ts, strs)[i].Enter?
    ensures Tok(ts, i) < |ts| && ts[Tok(ts, i)].BeginNode? && Aligned(Off(ts, Tok(ts, i)))
  {
    CursorBehind(ts, strs, i);
    OffAligned(ts, Tok(ts, i));
  }

  lemma TagIsNotEnd(ts: seq<Token>, j: nat)
    requires j < |ts| ==> Tag(ts[j]) == END
    ensures j >= |ts|
  {}

  /** What a tag says about the event of its token. */
  lemma TagMeans(ts: seq<Token>, strs: seq<Byte>, j: nat, c: nat)
    requires j < |ts| && NamesOk(ts, strs)
    requires !ts[j].Nop? ==>
      c < |Events(ts, strs)| && Tok(ts, c) == j && (ts[j].Prop? ==> HasString(strs, ts[j].nameoff))
      && Events(ts, strs)[c] == Ev(ts[j], strs)
    ensures Tag(ts[j]) == BEGIN_NODE <==> ts[j].BeginNode?
    ensures Tag(ts[j]) == END_NODE <==> ts[j].EndNode?
    ensures Tag(ts[j]) == PROP <==> ts[j].Prop?
    ensures Tag(ts[j]) == NOP <==> ts[j].Nop?
    ensures !ts[j].Nop? ==>
      (ts[j].BeginNode? <==> Events(ts, strs)[c].Enter?) && (ts[j].EndNode? <==> Events(ts, strs)[c].Leave?)
    ensures !ts[j].Nop? ==> (ts[j].Prop? <==> Events(ts, strs)[c].Attr?)
  {}

  /** The offset behind a node's tag, or an error when the offset is no node. */
  method CheckNodeOffset(b: Blob, offset: int, ghost j: nat) returns (r: int)
    requires b.Valid() && (offset < 0 || !Aligned(offset) || (j <= |b.ts| && offset == Off(b.ts, j)))
    ensures r == if 0 <= offset && Aligned(offset) && j < |b.ts| && b.ts[j].BeginNode? then Off(b.ts, j + 1)
      else -ERR_BADOFFSET
  {
    if offset < 0 || !Aligned(offset) { return -ERR_BADOFFSET; }
    var tag, next := TagHere(b, offset, j);
    if tag != BEGIN_NODE { return -ERR_BADOFFSET; }
    return next;
  }

  // ---------- nodes ----------

  /** The events from i on begin with those of the node n. */
  ghost predicate InTree(es: seq<Event>, i: nat, n: Node) {
    i + |Flatten(n)| <= |es| && es[i..i + |Flatten(n)|] == Flatten(n)
  }

  lemma LevelIn(es: seq<Event>, i: nat, n: Node, y: nat)
    requires InTree(es, i, n) && y <= |Flatten(n)|
    ensures Level(es, i + y) == Level(es, i) + Level(Flatten(n), y)
    ensures y < |Flatten(n)| ==> es[i + y] == Flatten(n)[y]
  {
    var f := Flatten(n);
    var rest := es[i + |f|..];
    assert es == es[..i] + (f + rest);
    LevelShift(es[..i], f + rest, y);
    LevelPrefix(f, rest, y);
    LevelPrefix(es[..i], f + rest, i);
  }

  /** The end of a node is the first place where its own level is reached again. */
  lemma NodeSpan(es: seq<Event>, i: nat, n: Node)
    requires InTree(es, i, n)
    ensures |Flatten(n)| > 0 && es[i] == Enter(n.name)
    ensures forall x :: i < x < i + |Flatten(n)| ==> Level(es, x) > Level(es, i)
    ensures Level(es, i + |Flatten(n)|) == Level(es, i)
  {
    var f := Flatten(n);
    assert f[0] == Enter(n.name) && es[i] == es[i..i + |f|][0];
    forall x | i < x < i + |f|
      ensures Level(es, x) > Level(es, i)
    {
      LevelIn(es, i, n, x - i);
      NodeLevel(n, x - i);
    }
    LevelIn(es, i, n, |f|);
    NodeLevel(n, |f|);
  }

  lemma InTreeEnds(es: seq<Event>, i: nat, n: Node)
    requires InTree(es, i, n)
    ensures 0 < |Flatten(n)| && i + |Flatten(n)| <= |es|
  {}

  /** A walk inside a node stops at a later node of it, or right behind it. */
  lemma StopInside(es: seq<Event>, ts: seq<Token>, i: nat, n: Node, c: nat, r: int, d: int, at: nat, stop: Stop)
    requires InTree(es, i, n) && i <= c < i + |Flatten(n)| && AllWf(ts) && Level(es, c) >= Level(es, i)
    requires Reached(es, ts, c, true, Level(es, c) - Level(es, i), r, d, at, stop)
    ensures stop.AtNode? || stop.Past?
    ensures stop.AtNode? ==> c < at < i + |Flatten(n)| && d == Level(es, at) - Level(es, i) && d >= 1
    ensures stop.Past? ==> at == i + |Flatten(n)|
  {
    NodeSpan(es, i, n);
    var end := i + |Flatten(n)|;
    assert BaseLevel(es, c) == Level(es, c);
    hide Level, Flatten, BaseLevel;
  }

  /** The offset behind a node, everything below it included. */
  method NodeEnd(b: Blob, offset: int, ghost i: nat, ghost n: Node) returns (r: int)
    requires b.Valid() && InTree(b.Line(), i, n) && offset == EvOff(b.ts, i)
    ensures r == EvEnd(b.ts, i + |Flatten(n)| - 1)
  {
    hide *;
    Known(b);
    ghost var es := b.Line();
    NodeSpan(es, i, n);
    InTreeEnds(es, i, n);
    ghost var c := i;
    var depth := 0;
    r := offset;
    while r >= 0 && depth >= 0
      invariant depth >= 0 ==>
        i <= c < i + |Flatten(n)| <= |es| && es[c].Enter? && r == EvOff(b.ts, c) && depth == Level(es, c) - Level(es, i)
      invariant depth < 0 ==> r == EvEnd(b.ts, i + |Flatten(n)| - 1)
      decreases if depth >= 0 then i + |Flatten(n)| - c else 0
    {
      ghost var stop, at;
      r, depth, at, stop := NextNode(b, r, true, depth, c);
      ReachedStop(es, b.ts, c, true, Level(es, c) - Level(es, i), r, depth, at, stop);
      StopInside(es, b.ts, i, n, c, r, depth, at, stop);
      c := at;
    }
  }

  lemma ReachedStop(es: seq<Event>, ts: seq<Token>, i: nat, tracked: bool, depth: int, r: int, d: int, at: nat,
          stop: Stop)
    requires i < |es| && AllWf(ts) && Reached(es, ts, i, tracked, depth, r, d, at, stop)
    ensures stop.AtNode? ==> i < at < |es| && es[at].Enter? && r == EvOff(ts, at)
    ensures stop.AtNode? ==> forall x :: i < x < at ==> !es[x].Enter?
    ensures stop.Past? ==> d < 0 && i < at <= |es| && r == EvEnd(ts, at - 1)
    ensures stop.Past? ==> forall x :: i < x < at ==> !es[x].Enter?
  {}

  /** A node's name. */
  method GetName(b: Blob, offset: int, ghost i: nat) returns (name: seq<Byte>)
    requires b.Valid() && i < |b.Line()| && b.Line()[i].Enter? && offset == EvOff(b.ts, i)
    ensures name == b.Line()[i].name
  {
    hide *;
    Known(b);
    ghost var n := b.Line()[i].name;
    NameInBlock(b.ts, b.tail, b.Strings(), i);
    var end, found := b.SkipName(offset + 4);
    name := b.ReadStruct(offset + 4, end - 1);
  }

  lemma NameInBlock(ts: seq<Token>, tail: seq<Byte>, strs: seq<Byte>, i: nat)
    requires AllWf(ts) && NamesOk(ts, strs) && i < |Events(ts, strs)| && Events(ts, strs)[i].Enter?
    ensures var s, o, name := Block(ts, tail), EvOff(ts, i), Events(ts, strs)[i].name;
      o + 4 + |name| < |s| && NulAt(s, o + 4) == o + 4 + |name| && s[o + 4..o + 4 + |name|] == name
  {
    hide *;
    var j := Tok(ts, i);
    EvIsToken(ts, strs, i);
    BlockAt(ts, tail, j);
    OffAligned(ts, j);
    NameStep(Block(ts, tail), Off(ts, j), ts[j].name, ts[j].pad);
  }

  /** The token of an event that enters a node. */
  lemma EvIsToken(ts: seq<Token>, strs: seq<Byte>, i: nat)
    requires AllWf(ts) && NamesOk(ts, strs) && i < |Events(ts, strs)| && Events(ts, strs)[i].Enter?
    ensures var j := Tok(ts, i);
      j < |ts| && ts[j].BeginNode? && ts[j] == BeginNode(Events(ts, strs)[i].name, ts[j].pad) && Wf(ts[j])
        && EvOff(ts, i) == Off(ts, j)
  {
    CursorBehind(ts, strs, i);
  }

  /** The name of a node is the one asked for, or goes on with an at sign behind a name that has none. */
  predicate NameMatches(name: seq<Byte>, s: seq<Byte>) {
    |s| <= |name| && name[..|s|] == s && (|name| == |s| || (64 !in s && name[|s|] == 64))
  }

  method NodeNameEq(b: Blob, offset: int, s: seq<Byte>, ghost i: nat) returns (r: bool)
    requires b.Valid() && i < |b.Line()| && b.Line()[i].Enter? && offset == EvOff(b.ts, i)
    ensures r == NameMatches(b.Line()[i].name, s)
  {
    var p := GetName(b, offset, i);
    if |p| < |s| { return false; }
    if p[..|s|] != s { return false; }
    if |p| == |s| { return true; }
    return 64 !in s && p[|s|] == 64;
  }

  /** The first child with a matching name, or the number of children. */
  ghost function FindChild(ns: seq<Node>, s: seq<Byte>): (c: nat)
    ensures c <= |ns| && (c < |ns| ==> NameMatches(ns[c].name, s))
    ensures forall k :: 0 <= k < c ==> !NameMatches(ns[k].name, s)
  {
    if ns == [] || NameMatches(ns[0].name, s) then 0
    else
      var c := 1 + FindChild(ns[1..], s);
      assert forall k :: 0 < k < c ==> ns[k] == ns[1..][k - 1];
      c
  }

  /** A name matches if it is the one asked for, or begins with it and an at sign when the one asked for has none. */
  lemma NameMeans(name: seq<Byte>, s: seq<Byte>)
    ensures NameMatches(name, s) <==> name == s || ('@' as int !in s && s + ['@' as int] <= name)
  {
    if NameMatches(name, s) && |s| < |name| { assert s + ['@' as int] == name[..|s| + 1]; }
    if s + ['@' as int] <= name { assert name[..|s|] == s; }
  }

  /** The child found is the first with the name asked for, or with that name and a unit address. */
  lemma FindsByName(ns: seq<Node>, s: seq<Byte>)
    ensures
      var c := FindChild(ns, s);
      && (c < |ns| ==> ns[c].name == s || ('@' as int !in s && s + ['@' as int] <= ns[c].name))
      && forall k :: 0 <= k < c ==> ns[k].name != s && ('@' as int in s || !(s + ['@' as int] <= ns[k].name))
    ensures FindChild(ns, s) < |ns| <==> exists k ::
      0 <= k < |ns| && (ns[k].name == s || ('@' as int !in s && s + ['@' as int] <= ns[k].name))
  {
    forall k | 0 <= k < |ns|
      ensures NameMatches(ns[k].name, s) <==> ns[k].name == s || ('@' as int !in s && s + ['@' as int] <= ns[k].name)
    {
      NameMeans(ns[k].name, s);
    }
    hide NameMatches;
  }

  lemma ChildPosGrows(n: Node, c: nat, d: nat)
    requires c < d <= |n.children|
    ensures ChildPos(n, c) + |Flatten(n.children[c])| <= ChildPos(n, d)
  {
    assert n.children[..d][..c] == n.children[..c] && n.children[..d][c] == n.children[c];
    FlattenAt(n.children[..d], c);
  }

  /** The search has passed every child that begins before c without a match. */
  ghost predicate Passed(n: Node, i: nat, c: nat, s: seq<Byte>) {
    forall k :: 0 <= k < |n.children| && i + ChildPos(n, k) < c ==> !NameMatches(n.children[k].name, s)
  }

  /** At depth one the walk stands at a child: the one looked for, or one more that is passed. */
  lemma VisitNode(es: seq<Event>, i: nat, n: Node, c: nat, s: seq<Byte>)
    requires InTree(es, i, n) && i <= c < i + |Flatten(n)| && es[c].Enter? && Passed(n, i, c, s)
    ensures Level(es, c) - Level(es, i) == 1 && NameMatches(es[c].name, s) ==>
      FindChild(n.children, s) < |n.children| && c == i + ChildPos(n, FindChild(n.children, s))
    ensures !(Level(es, c) - Level(es, i) == 1 && NameMatches(es[c].name, s)) ==> Passed(n, i, c + 1, s)
  {
    hide Flatten, Level, Passed, FindChild, ChildPos, NameMatches, InTree;
    InTreeEnds(es, i, n);
    LevelIn(es, i, n, c - i);
    PassedFact(n, i, c, s);
    var f := FindChild(n.children, s);
    if Level(es, c) - Level(es, i) == 1 {
      if c == i { LevelZero(Flatten(n)); }
      AtChild(n, c - i);
      var k :| 0 <= k < |n.children| && c - i == ChildPos(n, k);
      ChildAt(n, k);
      NodesNotEmpty(n.children[k]);
      if f < k { NodesNotEmpty(n.children[f]); ChildPosGrows(n, f, k); }
      OnlyChildHere(n, k);
      if !NameMatches(es[c].name, s) { PassedMore(n, i, c, s); }
    } else {
      forall k | 0 <= k < |n.children|
        ensures i + ChildPos(n, k) != c
      {
        ChildAt(n, k);
      }
      PassedMore(n, i, c, s);
    }
  }

  lemma PassedFact(n: Node, i: nat, c: nat, s: seq<Byte>)
    requires Passed(n, i, c, s)
    ensures var f := FindChild(n.children, s); f < |n.children| ==> i + ChildPos(n, f) >= c
    ensures var f := FindChild(n.children, s);
      forall k :: 0 <= k < |n.children| && NameMatches(n.children[k].name, s) ==> f <= k
  {}

  lemma PassedMore(n: Node, i: nat, c: nat, s: seq<Byte>)
    requires Passed(n, i, c, s)
    requires forall k :: 0 <= k < |n.children| && i + ChildPos(n, k) == c ==> !NameMatches(n.children[k].name, s)
    ensures Passed(n, i, c + 1, s)
  {}

  lemma OnlyChildHere(n: Node, k: nat)
    requires k < |n.children|
    ensures forall m :: 0 <= m < |n.children| && ChildPos(n, m) == ChildPos(n, k) ==> m == k
  {
    forall m | 0 <= m < |n.children| && m != k
      ensures ChildPos(n, m) != ChildPos(n, k)
    {
      NodesNotEmpty(n.children[if m < k then m else k]);
      if m < k { ChildPosGrows(n, m, k); } else { ChildPosGrows(n, k, m); }
    }
  }

  lemma NodesNotEmpty(n: Node)
    ensures |Flatten(n)| >= 2
  {}

  /** Up to the next stop no child begins. */
  lemma PassedOn(es: seq<Event>, i: nat, n: Node, c: nat, at: nat, s: seq<Byte>)
    requires InTree(es, i, n) && i <= c < at <= i + |Flatten(n)| && Passed(n, i, c + 1, s)
    requires forall x :: c < x < at ==> !es[x].Enter?
    ensures Passed(n, i, at, s)
  {
    forall k | 0 <= k < |n.children| && i + ChildPos(n, k) < at
      ensures !NameMatches(n.children[k].name, s)
    {
      ChildAt(n, k);
      LevelIn(es, i, n, ChildPos(n, k));
      assert es[i + ChildPos(n, k)].Enter?;
    }
  }

  lemma PassedAll(n: Node, i: nat, s: seq<Byte>)
    requires Passed(n, i, i + |Flatten(n)|, s)
    ensures FindChild(n.children, s) == |n.children|
  {
    var f := FindChild(n.children, s);
    if f < |n.children| { ChildAt(n, f); }
  }

  /** The first child with a matching name. */
  method SubnodeOffset(b: Blob, parent: int, name: seq<Byte>, ghost i: nat, ghost n: Node) returns (r: int)
    requires b.Valid() && InTree(b.Line(), i, n) && parent == EvOff(b.ts, i)
    ensures var c := FindChild(n.children, name);
      r == if c < |n.children| then EvOff(b.ts, i + ChildPos(n, c)) else -ERR_NOTFOUND
    ensures r >= 0 <==> exists k ::
      0 <= k < |n.children|
      && (n.children[k].name == name || ('@' as int !in name && name + ['@' as int] <= n.children[k].name))
  {
    hide *;
    FindsByName(n.children, name);
    TagsDiffer();
    Known(b);
    ghost var es := b.Line();
    NodeSpan(es, i, n);
    InTreeEnds(es, i, n);
    NothingPassed(n, i, name);
    ghost var c := i;
    var depth := 0;
    var offset := parent;
    while offset >= 0 && depth >= 0
      invariant depth >= 0 ==> i <= c < i + |Flatten(n)| <= |es| && es[c].Enter? && offset == EvOff(b.ts, c)
      invariant depth >= 0 ==> depth == Level(es, c) - Level(es, i) && Passed(n, i, c, name)
      invariant depth < 0 ==> Passed(n, i, i + |Flatten(n)|, name)
      decreases if depth >= 0 then i + |Flatten(n)| - c else 0
    {
      VisitNode(es, i, n, c, name);
      if depth == 1 {
        var same := NodeNameEq(b, offset, name, c);
        if same { return offset; }
      }
      ghost var stop, at;
      offset, depth, at, stop := NextNode(b, offset, true, depth, c);
      ReachedStop(es, b.ts, c, true, Level(es, c) - Level(es, i), offset, depth, at, stop);
      StopInside(es, b.ts, i, n, c, offset, depth, at, stop);
      PassedOn(es, i, n, c, at, name);
      c := at;
    }
    PassedAll(n, i, name);
    return -ERR_NOTFOUND;
  }

  lemma NothingPassed(n: Node, i: nat, s: seq<Byte>)
    ensures Passed(n, i, i, s)
  {}

  /** The next node on the way is the next child when it lies at depth one, and there is none when the walk ends. */
  lemma NextIsChild(es: seq<Event>, i: nat, n: Node, c: nat, at: nat, k: nat)
    requires InTree(es, i, n) && i <= c < at < i + |Flatten(n)| && es[at].Enter? && Level(es, at) - Level(es, i) == 1
    requires k <= |n.children| && (k == 0 || i + ChildPos(n, k - 1) <= c)
      && (k < |n.children| ==> at <= i + ChildPos(n, k))
    ensures k < |n.children| && at == i + ChildPos(n, k)
  {
    hide Flatten, Level, ChildPos, InTree;
    InTreeEnds(es, i, n);
    LevelIn(es, i, n, at - i);
    AtChild(n, at - i);
    var m :| 0 <= m < |n.children| && at - i == ChildPos(n, m);
    if m < k - 1 { NodesNotEmpty(n.children[m]); ChildPosGrows(n, m, k - 1); }
    if m > k { NodesNotEmpty(n.children[k]); ChildPosGrows(n, k, m); }
  }

  lemma ChildIsNode(es: seq<Event>, i: nat, n: Node, k: nat)
    requires InTree(es, i, n) && k < |n.children|
    ensures var c := i + ChildPos(n, k);
      && i < c && c + |Flatten(n.children[k])| < i + |Flatten(n)| && InTree(es, c, n.children[k])
      && es[c].Enter? && Level(es, c) == Level(es, i) + 1
  {
    ChildAt(n, k);
    LevelIn(es, i, n, ChildPos(n, k));
    var f, p, m := Flatten(n), ChildPos(n, k), Flatten(n.children[k]);
    SliceOfSlice(es, i, i + |f|, p, p + |m|);
  }

  lemma SliceOfSlice(es: seq<Event>, i: nat, j: nat, p: nat, q: nat)
    requires i <= j <= |es| && p <= q <= j - i
    ensures es[i..j][p..q] == es[i + p..i + q]
  {
    var a, b := es[i..j][p..q], es[i + p..i + q];
    assert |a| == |b|;
    forall x | 0 <= x < |a|
      ensures a[x] == b[x]
    {
      assert a[x] == es[i..j][p + x];
    }
  }

  /** Up to the next stop no child begins. */
  lemma NoChildBetween(es: seq<Event>, i: nat, n: Node, c: nat, at: nat, k: nat)
    requires InTree(es, i, n) && k < |n.children| && c < i + ChildPos(n, k) && at <= |es|
    requires forall x :: c < x < at ==> !es[x].Enter?
    ensures at <= i + ChildPos(n, k)
  {
    ChildIsNode(es, i, n, k);
  }

  /** Where a walk among the children of n stops: at the next child, deeper, or behind the last. */
  lemma StopAmongChildren(es: seq<Event>, ts: seq<Token>, i: nat, n: Node, c: nat, r: int, d: int, at: nat, stop: Stop,
          k: nat)
    requires InTree(es, i, n) && i <= c < i + |Flatten(n)| && AllWf(ts) && Level(es, c) >= Level(es, i)
    requires Reached(es, ts, c, true, Level(es, c) - Level(es, i), r, d, at, stop)
    requires k <= |n.children| && (k == 0 || i + ChildPos(n, k - 1) <= c)
      && (k < |n.children| ==> c < i + ChildPos(n, k))
    ensures stop.AtNode? || stop.Past?
    ensures stop.Past? ==> d < 1 && k == |n.children|
    ensures stop.AtNode? ==>
      r == EvOff(ts, at) && i <= c < at < i + |Flatten(n)| <= |es| && es[at].Enter? && d >= 1
      && d == Level(es, at) - Level(es, i)
    ensures stop.AtNode? && d == 1 ==> k < |n.children| && at == i + ChildPos(n, k)
    ensures stop.AtNode? && d != 1 && k < |n.children| ==> at < i + ChildPos(n, k)
  {
    hide *;
    InTreeEnds(es, i, n);
    ReachedStop(es, ts, c, true, Level(es, c) - Level(es, i), r, d, at, stop);
    StopInside(es, ts, i, n, c, r, d, at, stop);
    if k < |n.children| {
      ChildIsNode(es, i, n, k);
      NodesNotEmpty(n.children[k]);
      NoChildBetween(es, i, n, c, at, k);
    }
    if stop.AtNode? && d == 1 { NextIsChild(es, i, n, c, at, k); }
  }

  /** From a node straight to its first child there is nothing deeper on the way. */
  lemma {:induction false} NothingDeeper(es: seq<Event>, i: nat, at: nat)
    requires i < at <= |es| && forall x :: i < x < at ==> !es[x].Enter?
    ensures Level(es, at) <= Level(es, i) + 1
    decreases at
  {
    if at > i + 1 { NothingDeeper(es, i, at - 1); }
  }

  method FirstSubnode(b: Blob, parent: int, ghost i: nat, ghost n: Node) returns (r: int)
    requires b.Valid() && InTree(b.Line(), i, n) && parent == EvOff(b.ts, i)
    ensures r == if |n.children| > 0 then EvOff(b.ts, i + ChildPos(n, 0)) else -ERR_NOTFOUND
  {
    hide *;
    Known(b);
    ghost var es := b.Line();
    NodeSpan(es, i, n);
    InTreeEnds(es, i, n);
    if |n.children| > 0 { ChildIsNode(es, i, n, 0); }
    var depth := 0;
    ghost var at, stop;
    r, depth, at, stop := NextNode(b, parent, true, depth, i);
    StopAmongChildren(es, b.ts, i, n, i, r, depth, at, stop, 0);
    ReachedStop(es, b.ts, i, true, 0, r, depth, at, stop);
    if stop.AtNode? { NothingDeeper(es, i, at); }
    if r < 0 || depth != 1 { return -ERR_NOTFOUND; }
  }

  method NextSubnode(b: Blob, child: int, ghost i: nat, ghost n: Node, ghost k: nat) returns (r: int)
    requires b.Valid() && InTree(b.Line(), i, n) && k < |n.children| && child == EvOff(b.ts, i + ChildPos(n, k))
    ensures r == if k + 1 < |n.children| then EvOff(b.ts, i + ChildPos(n, k + 1)) else -ERR_NOTFOUND
  {
    hide *;
    Known(b);
    ghost var es := b.Line();
    NodeSpan(es, i, n);
    InTreeEnds(es, i, n);
    ChildIsNode(es, i, n, k);
    if k + 1 < |n.children| { ChildPosGrows(n, k, k + 1); }
    NodesNotEmpty(n.children[k]);
    var depth := 1;
    r := child;
    ghost var c := i + ChildPos(n, k);
    while true
      invariant i < c < i + |Flatten(n)| <= |es| && es[c].Enter? && r == EvOff(b.ts, c)
      invariant depth == Level(es, c) - Level(es, i) && depth >= 1
      invariant i + ChildPos(n, k) <= c && (k + 1 < |n.children| ==> c < i + ChildPos(n, k + 1))
      decreases i + |Flatten(n)| - c
    {
      ghost var at, stop;
      r, depth, at, stop := NextNode(b, r, true, depth, c);
      StopAmongChildren(es, b.ts, i, n, c, r, depth, at, stop, k + 1);
      if r < 0 || depth < 1 { return -ERR_NOTFOUND; }
      c := at;
      if depth <= 1 { return; }
    }
  }

  // ---------- properties ----------

  /** The next property in front of a token that is neither property nor filler. */
  method NextProp(b: Blob, start: int, ghost j0: nat, ghost c: nat) returns (r: int)
    requires b.Valid() && Cursor(b.ts, b.Strings(), j0, c) && start == Off(b.ts, j0)
    ensures r == if c == |b.Line()| then -ERR_BADSTRUCTURE else if b.Line()[c].Attr? then EvOff(b.ts, c)
      else -ERR_NOTFOUND
  {
    hide *;
    Known(b);
    ghost var ts, strs := b.ts, b.Strings();
    CursorBounds(ts, strs, j0, c);
    TagsDiffer();
    ghost var j := j0;
    var offset := start;
    while true
      invariant j <= |ts| && Cursor(ts, strs, j, c) && offset == Off(ts, j)
      decreases |ts| - j
    {
      var tag, next := TagHere(b, offset, j);
      if tag == END {
        TagIsNotEnd(ts, j);
        CursorEnd(ts, strs, c);
        return if next >= 0 then -ERR_BADSTRUCTURE else next;
      }
      Advance(ts, strs, j, c, tag);
      if tag == PROP {
        OffOfEvent(ts, c, j);
        return offset;
      }
      offset := next;
      j := j + 1;
      if tag != NOP { return -ERR_NOTFOUND; }
    }
  }

  lemma OffOfEvent(ts: seq<Token>, c: nat, j: nat)
    requires AllWf(ts) && Tok(ts, c) == j
    ensures EvOff(ts, c) == Off(ts, j)
  {}

  method FirstPropertyOffset(b: Blob, node: int, ghost i: nat) returns (r: int)
    requires b.Valid() && i + 1 < |b.Line()| && b.Line()[i].Enter? && node == EvOff(b.ts, i)
    ensures r == if b.Line()[i + 1].Attr? then EvOff(b.ts, i + 1) else -ERR_NOTFOUND
  {
    hide *;
    Known(b);
    NodeTag(b.ts, b.Strings(), i);
    CursorBehind(b.ts, b.Strings(), i);
    OffOfEvent(b.ts, i, Tok(b.ts, i));
    var offset := CheckNodeOffset(b, node, Tok(b.ts, i));
    r := NextProp(b, offset, Tok(b.ts, i) + 1, i + 1);
  }

  method CheckPropOffset(b: Blob, offset: int, ghost i: nat) returns (r: int)
    requires b.Valid() && i < |b.Line()| && b.Line()[i].Attr? && offset == EvOff(b.ts, i)
    ensures Tok(b.ts, i) < |b.ts| && r == Off(b.ts, Tok(b.ts, i) + 1)
  {
    hide *;
    Known(b);
    TagsDiffer();
    PropToken(b.ts, b.Strings(), i);
    AlignedMeans(offset);
    if offset < 0 || !Aligned(offset) { return -ERR_BADOFFSET; }
    var tag, next := TagHere(b, offset, Tok(b.ts, i));
    if tag != PROP { return -ERR_BADOFFSET; }
    return next;
  }

  lemma AlignedMeans(o: int)
    ensures Aligned(o) <==> o % 4 == 0
  {}

  /** The token of an event that states a property. */
  lemma PropToken(ts: seq<Token>, strs: seq<Byte>, i: nat)
    requires AllWf(ts) && NamesOk(ts, strs) && i < |Events(ts, strs)| && Events(ts, strs)[i].Attr?
    ensures var j := Tok(ts, i);
      && j < |ts| && ts[j].Prop? && Wf(ts[j]) && EvOff(ts, i) == Off(ts, j) && Aligned(Off(ts, j)) && Tag(ts[j]) == PROP
      && HasString(strs, ts[j].nameoff)
      && Events(ts, strs)[i].prop == Property(StringAt(strs, ts[j].nameoff), ts[j].value)
  {
    CursorBehind(ts, strs, i);
    OffAligned(ts, Tok(ts, i));
  }

  method NextPropertyOffset(b: Blob, offset: int, ghost i: nat) returns (r: int)
    requires b.Valid() && i + 1 < |b.Line()| && b.Line()[i].Attr? && offset == EvOff(b.ts, i)
    ensures r == if b.Line()[i + 1].Attr? then EvOff(b.ts, i + 1) else -ERR_NOTFOUND
  {
    hide *;
    Known(b);
    var next := CheckPropOffset(b, offset, i);
    CursorBehind(b.ts, b.Strings(), i);
    r := NextProp(b, next, Tok(b.ts, i) + 1, i + 1);
  }

  /** The words of a property's head, and its value. */
  method ReadProp(b: Blob, offset: int, ghost i: nat) returns (nameoff: U32, value: seq<Byte>)
    requires b.Valid() && i < |b.Line()| && b.Line()[i].Attr? && offset == EvOff(b.ts, i)
    ensures HasString(b.Strings(), nameoff) && b.Line()[i].prop == Property(StringAt(b.Strings(), nameoff), value)
    ensures Tok(b.ts, i) < |b.ts| && b.ts[Tok(b.ts, i)].Prop? && nameoff == b.ts[Tok(b.ts, i)].nameoff
      && value == b.ts[Tok(b.ts, i)].value
  {
    hide *;
    Known(b);
    PropToken(b.ts, b.Strings(), i);
    PropInBlock(b.ts, b.tail, Tok(b.ts, i));
    var len := b.ReadU32(offset + 4);
    nameoff := b.ReadU32(offset + 8);
    value := b.ReadStruct(offset + 12, offset + 12 + len);
  }

  lemma PropInBlock(ts: seq<Token>, tail: seq<Byte>, j: nat)
    requires AllWf(ts) && j < |ts| && ts[j].Prop? && Wf(ts[j])
    ensures var s, o, t := Block(ts, tail), Off(ts, j), ts[j];
      o + 12 + |t.value| <= |s| && GetU32(s, o + 4) == |t.value| && GetU32(s, o + 8) == t.nameoff
        && s[o + 12..o + 12 + |t.value|] == t.value
  {
    hide *;
    BlockAt(ts, tail, j);
    OffAligned(ts, j);
    var t := ts[j];
    PropStep(Block(ts, tail), Off(ts, j), t.nameoff, t.value, t.pad);
  }

  lemma HeldName(b: Blob, o: int)
    requires b.Layout() && HasString(b.Strings(), o)
    ensures 0 <= o < WORD && 0 !in StringAt(b.Strings(), o)
  {}

  /** The string at an offset of the strings block. */
  method GetString(b: Blob, stroffset: int) returns (ok: bool, s: seq<Byte>)
    requires b.Layout() && 0 <= stroffset < WORD
    ensures ok <==> HasString(b.Strings(), stroffset)
    ensures ok ==> s == StringAt(b.Strings(), stroffset)
  {
    hide *;
    Bounds(b);
    TagsDiffer();
    ghost var strs := b.Strings();
    StringMeans(strs, stroffset);
    s := [];
    var absoffset := (stroffset + b.offStrings) % WORD;
    if absoffset >= b.totalsize { return false, s; }
    var len := b.totalsize - absoffset;
    if stroffset >= b.sizeStrings { return false, s; }
    if b.sizeStrings - stroffset < len { len := b.sizeStrings - stroffset; }
    var n := 0;
    while n < len
      invariant 0 <= n <= len
      invariant NulAt(strs, stroffset) == NulAt(strs, stroffset + n)
    {
      StringByte(b, stroffset + n);
      NulStep(strs, stroffset + n);
      if b.buf[absoffset + n] == 0 {
        s := b.ReadStrings(stroffset, stroffset + n);
        return true, s;
      }
      n := n + 1;
    }
    return false, s;
  }

  lemma Bounds(b: Blob)
    requires b.Layout()
    ensures b.offStrings + b.sizeStrings <= b.totalsize <= b.buf.Length && b.totalsize < 0x7fff_ffff
    ensures |b.Strings()| == b.sizeStrings
  {}

  lemma StringMeans(strs: seq<Byte>, o: nat)
    ensures HasString(strs, o) <==> o < |strs| && NulAt(strs, o) < |strs|
    ensures HasString(strs, o) ==> StringAt(strs, o) == strs[o..NulAt(strs, o)]
  {}

  lemma StringByte(b: Blob, i: nat)
    requires b.Layout() && i < b.sizeStrings
    ensures b.buf[b.offStrings + i] == b.Strings()[i]
  {}

  /** A zero byte ends the text there; past any other the end is that from the next byte on. */
  lemma NulStep(s: seq<Byte>, i: nat)
    requires i < |s|
    ensures NulAt(s, i) == if s[i] == 0 then i else NulAt(s, i + 1)
  {}

  /** The first property with the name, or the number of properties. */
  ghost function FindProp(ps: seq<Property>, name: seq<Byte>): (k: nat)
    ensures k <= |ps| && (k < |ps| ==> ps[k].name == name)
    ensures forall m :: 0 <= m < k ==> ps[m].name != name
  {
    if ps == [] || ps[0].name == name then 0
    else
      var k := 1 + FindProp(ps[1..], name);
      assert forall m :: 0 < m < k ==> ps[m] == ps[1..][m - 1];
      k
  }

  lemma FindPropIs(ps: seq<Property>, name: seq<Byte>, k: nat)
    requires k <= |ps| && (k < |ps| ==> ps[k].name == name) && forall m :: 0 <= m < k ==> ps[m].name != name
    ensures FindProp(ps, name) == k
  {}

  /** A node's properties are the events right behind its start. */
  lemma PropAt(es: seq<Event>, i: nat, n: Node, k: nat)
    requires InTree(es, i, n) && k <= |n.props|
    ensures i + 1 + k < |es|
    ensures if k < |n.props| then es[i + 1 + k] == Attr(n.props[k]) else !es[i + 1 + k].Attr?
  {
    Head(n, []);
    var f, rest := Flatten(n), FlattenAll(n.children) + [Leave] + [];
    assert f + [] == f;
    assert f == [f[0]] + (Attrs(n.props) + rest);
    assert es[i + 1 + k] == es[i..i + |f|][1 + k] == (Attrs(n.props) + rest)[k];
  }

  /** The offset of a node's property and its value, by name. */
  method GetProperty(b: Blob, node: int, name: seq<Byte>, ghost i: nat, ghost n: Node)
    returns (r: int, value: seq<Byte>)
    requires b.Valid() && InTree(b.Line(), i, n) && node == EvOff(b.ts, i)
    ensures var k := FindProp(n.props, name);
      if k < |n.props| then r == EvOff(b.ts, i + 1 + k) && value == n.props[k].value else r == -ERR_NOTFOUND
  {
    hide *;
    Known(b);
    TagsDiffer();
    ghost var es := b.Line();
    NodeSpan(es, i, n);
    InTreeEnds(es, i, n);
    PropAt(es, i, n, 0);
    ghost var k := 0;
    var offset := FirstPropertyOffset(b, node, i);
    while offset >= 0
      invariant k <= |n.props| && forall m :: 0 <= m < k ==> n.props[m].name != name
      invariant offset == if k < |n.props| then EvOff(b.ts, i + 1 + k) else -ERR_NOTFOUND
      decreases |n.props| - k
    {
      PropAt(es, i, n, k);
      var nameoff, v := ReadProp(b, offset, i + 1 + k);
      var ok, s := GetString(b, nameoff);
      if ok && s == name {
        FindPropIs(n.props, name, k);
        return offset, v;
      }
      PropAt(es, i, n, k + 1);
      offset := NextPropertyOffset(b, offset, i + 1 + k);
      k := k + 1;
    }
    FindPropIs(n.props, name, k);
    return offset, [];
  }
}
