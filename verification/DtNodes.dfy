/** Adding, removing and renaming nodes: what the calls do to the tree. */
module DtNodes {
  import opened DtFormat
  import opened DtTree
  import opened DtEvents
  import opened DtBlob
  import opened DtRead
  import opened DtEdit
  import opened DtProperties

  // ---------- removing ----------

  ghost function WithoutChild(n: Node, c: nat): Node
    requires c < |n.children|
  {
    n.(children := n.children[..c] + n.children[c + 1..])
  }

  /** Taking the events of a child away takes the child away. */
  lemma ChildRemoved(t: Node, p: Path, c: nat)
    requires HasPath(t, p) && c < |At(t, p).children|
    ensures HasPath(t, p + [c])
    ensures Before(t, p + [c]) + After(t, p + [c]) == Flatten(Replace(t, p, WithoutChild(At(t, p), c)))
  {
    var n := At(t, p);
    ReplaceChild(t, p, c, n.children[c]);
    Focus(t, p, WithoutChild(n, c));
    FlattenConcat(n.children[..c], n.children[c + 1..]);
    var h := [Enter(n.name)] + Attrs(n.props);
    var l, r := FlattenAll(n.children[..c]), FlattenAll(n.children[c + 1..]);
    assert Flatten(WithoutChild(n, c)) == h + (l + r) + [Leave];
    hide *;
    GlueAround(Before(t, p), h, l, r, After(t, p));
  }

  lemma GlueAround(b: seq<Event>, h: seq<Event>, l: seq<Event>, r: seq<Event>, a: seq<Event>)
    ensures (b + (h + l)) + (r + [Leave] + a) == b + (h + (l + r) + [Leave]) + a
  {}

  /** Removes a node with everything below it. */
  method DelNode(b: Blob, node: int, ghost t: Node, ghost p: Path) returns (err: int)
    requires Holds(b, t) && HasPath(t, p) && node == EvOff(b.ts, Place(t, p))
    modifies b, b.buf
    ensures b.Valid() && b.Front() == old(b.Front()) && b.Strings() == old(b.Strings())
      && b.totalsize == old(b.totalsize)
    ensures err == 0 && b.Line() == Before(t, p) + After(t, p)
    ensures Place(t, p) > 0 ==> Kept(old(b.ts), b.ts, Place(t, p) - 1)
  {
    hide *;
    HoldsFacts(b, t);
    Known(b);
    Placed(t, p);
    ghost var n, x, ts, tail, strs, s := At(t, p), Place(t, p), b.ts, b.tail, b.Strings(), b.Struct();
    ghost var y := x + |Flatten(n)| - 1;
    InTreeEnds(b.Line(), x, n);
    var end := NodeEnd(b, node, x, n);
    NodeExtent(ts, strs, s, tail, x, y);
    DataFits(b);
    err := b.SpliceStruct(node, end - node, 0);
    Removed(ts, tail, strs, s, b.Struct(), x, y, end - node);
    b.ts := Edited(ts, Tok(ts, x), Tok(ts, y) + 1, []);
    NowValid(b);
    NodeCut(t, p);
  }

  lemma NodeExtent(ts: seq<Token>, strs: seq<Byte>, s: seq<Byte>, tail: seq<Byte>, x: nat, y: nat)
    requires AllWf(ts) && NamesOk(ts, strs) && x <= y < |Events(ts, strs)| && s == Block(ts, tail)
    ensures Tok(ts, x) <= Tok(ts, y) < |ts|
      && EvOff(ts, x) == Off(ts, Tok(ts, x)) <= Off(ts, Tok(ts, y) + 1) == EvEnd(ts, y) <= |s|
  {
    hide *;
    TokAt(ts, strs, y);
    TokMonotone(ts, x, y);
    Extent(ts, x, y);
    OffOrder(ts, Tok(ts, x), Tok(ts, y) + 1, s, tail);
  }

  lemma Extent(ts: seq<Token>, x: nat, y: nat)
    requires AllWf(ts)
    ensures EvOff(ts, x) == Off(ts, Tok(ts, x))
    ensures Tok(ts, y) < |ts| ==> EvEnd(ts, y) == Off(ts, Tok(ts, y) + 1)
  {}

  lemma NodeCut(t: Node, p: Path)
    requires HasPath(t, p)
    ensures var x := Place(t, p);
      x + |Flatten(At(t, p))| <= |Flatten(t)|
        && Patch(Flatten(t), x, x + |Flatten(At(t, p))|, []) == Before(t, p) + After(t, p)
  {
    hide *;
    var b, f, a := Before(t, p), Flatten(At(t, p)), After(t, p);
    Focus(t, p, At(t, p));
    LengthIs(t, p);
    PatchInside(b, f, a, 0, |f|, []);
    PatchAway(f);
    assert b + [] + a == b + a;
  }

  lemma PatchAway(f: seq<Event>)
    ensures Patch(f, 0, |f|, []) == []
  {}

  // ---------- renaming ----------

  lemma NameIs(name: seq<Byte>, pad: seq<Byte>)
    requires 0 !in name && |pad| == Align4(|name| + 1) - (|name| + 1)
    ensures var t := BeginNode(name, pad); Wf(t) && Bytes(t) == PutU32(BEGIN_NODE) + (name + [0] + pad)
  {}

  /** Bytes with a begin tag, a name and its zero byte are the start of a node, whatever the padding is. */
  lemma NameBytes(u: seq<Byte>, o: nat, name: seq<Byte>)
    requires 0 !in name && o + 4 + Align4(|name| + 1) <= |u|
    requires u[o..o + 4] == PutU32(BEGIN_NODE) && u[o + 4..o + 4 + (|name| + 1)] == name + [0]
    ensures var t := BeginNode(name, u[o + 4 + (|name| + 1)..o + 4 + Align4(|name| + 1)]);
      Wf(t) && Bytes(t) == u[o..o + 4 + Align4(|name| + 1)]
  {
    hide *;
    NameIs(name, u[o + 4 + (|name| + 1)..o + 4 + Align4(|name| + 1)]);
    CutInThree(u, o, o + 4, o + 4 + (|name| + 1), o + 4 + Align4(|name| + 1));
    var a, c := u[o..o + 4], u[o + 4 + (|name| + 1)..o + 4 + Align4(|name| + 1)];
    assert a + (name + [0]) + c == a + (name + [0] + c);
  }

  lemma BeginHere(ts: seq<Token>, tail: seq<Byte>, strs: seq<Byte>, i: nat)
    requires AllWf(ts) && NamesOk(ts, strs) && i < |Events(ts, strs)| && Events(ts, strs)[i].Enter?
    ensures var s, j, name := Block(ts, tail), Tok(ts, i), Events(ts, strs)[i].name;
      && j < |ts| && EvOff(ts, i) == Off(ts, j) && Off(ts, j + 1) == Off(ts, j) + 4 + Align4(|name| + 1) <= |s|
      && s[Off(ts, j)..Off(ts, j) + 4] == PutU32(BEGIN_NODE)
  {
    hide *;
    var s, j, name := Block(ts, tail), Tok(ts, i), Events(ts, strs)[i].name;
    EvIsToken(ts, strs, i);
    BlockAt(ts, tail, j);
    NameLayout(name, ts[j].pad);
    OpensTag(Bytes(ts[j]), name);
    Sub(s, Off(ts, j), Bytes(ts[j]), 0, 4);
  }

  lemma RenamedBytes(s: seq<Byte>, t: seq<Byte>, u: seq<Byte>, o: nat, a1: nat, a2: nat, name: seq<Byte>)
    requires Spliced(s, t, o + 4, a1, a2) && Written(t, u, o + 4, name) && |name| <= a2
    ensures o + 4 + a1 <= |s| && Around(s, u, o, o + 4 + a1, 4 + a2) && o + 4 + a2 <= |u|
    ensures u[o..o + 4] == s[o..o + 4] && u[o + 4..o + 4 + |name|] == name
  {
    SplicedSize(s, t, o + 4, a1, a2);
    hide *;
    AroundSpliced(s, t, o + 4, a1, a2, o, o + 4 + a1, 4 + a2);
    AroundWritten(s, t, u, o + 4, name, o, o + 4 + a1, 4 + a2);
    AroundFacts(s, u, o, o + 4 + a1, 4 + a2);
    WrittenHere(t, u, o + 4, name);
    WrittenElsewhere(t, u, o + 4, name, o, o + 4);
  }

  lemma BeginSize(name: seq<Byte>, pad: seq<Byte>, strs: seq<Byte>)
    requires Wf(BeginNode(name, pad))
    ensures |Bytes(BeginNode(name, pad))| == 4 + Align4(|name| + 1)
    ensures Ev(BeginNode(name, pad), strs) == Enter(name)
  {
    NameLayout(name, pad);
  }

  lemma Renamed(n: Node, name: seq<Byte>)
    ensures 1 <= |Flatten(n)| && Flatten(n.(name := name)) == Patch(Flatten(n), 0, 1, [Enter(name)])
  {
    var m := n.(name := name);
    var r := Attrs(n.props) + FlattenAll(n.children) + [Leave];
    assert Flatten(n) == [Enter(n.name)] + r && Flatten(m) == [Enter(name)] + r;
    hide *;
    PatchFirst(Enter(n.name), r, [Enter(name)]);
  }

  lemma PatchFirst(e: Event, r: seq<Event>, u: seq<Event>)
    ensures Patch([e] + r, 0, 1, u) == u + r
  {}

  lemma RenamedInTree(t: Node, p: Path, name: seq<Byte>)
    requires HasPath(t, p)
    ensures Place(t, p) < |Flatten(t)|
    ensures Flatten(Replace(t, p, At(t, p).(name := name))) ==
      Flatten(t)[..Place(t, p)] + [Enter(name)] + Flatten(t)[Place(t, p) + 1..]
  {
    Renamed(At(t, p), name);
    Placed(t, p);
    hide Flatten, Before, At, Replace;
    PatchTree(t, p, 0, 1, [Enter(name)], At(t, p).(name := name));
  }

  /** Gives a node another name, or reports that there is no room. */
  method SetName(b: Blob, node: int, name: seq<Byte>, ghost t: Node, ghost p: Path) returns (err: int)
    requires Holds(b, t) && HasPath(t, p) && node == EvOff(b.ts, Place(t, p)) && 0 !in name
    modifies b, b.buf
    ensures b.Valid() && b.Front() == old(b.Front()) && b.Strings() == old(b.Strings())
      && b.totalsize == old(b.totalsize)
    ensures var room := Align4(|name| + 1) - Align4(|At(t, p).name| + 1);
      && err == (if old(b.DataSize()) + room > b.totalsize then -ERR_NOSPACE else 0)
      && b.DataSize() == old(b.DataSize()) + if err == 0 then room else 0
    ensures err != 0 ==> Holds(b, t) && b.ts == old(b.ts)
    ensures err == 0 ==> Holds(b, Replace(t, p, At(t, p).(name := name))) && Kept(old(b.ts), b.ts, Place(t, p))
  {
    hide *;
    HoldsFacts(b, t);
    Known(b);
    Placed(t, p);
    ghost var n, i, ts, tail, strs, s := At(t, p), Place(t, p), b.ts, b.tail, b.Strings(), b.Struct();
    ghost var j := Tok(ts, i);
    var oldname := GetName(b, node, i);
    BeginHere(ts, tail, strs, i);
    err := b.SpliceStruct(node + 4, Align4(|oldname| + 1), Align4(|name| + 1));
    if err != 0 {
      NowValid(b);
      NowHolds(b, t);
      return;
    }
    ghost var u := b.Struct();
    SplicedSize(s, u, node + 4, Align4(|oldname| + 1), Align4(|name| + 1));
    b.WriteStruct(node + 4, name + [0]);
    ghost var w := b.Struct();
    RenamedBytes(s, u, w, node, Align4(|oldname| + 1), Align4(|name| + 1), name + [0]);
    ghost var k := BeginNode(name, w[node + 4 + (|name| + 1)..node + 4 + Align4(|name| + 1)]);
    RenamedToken(ts, tail, strs, s, w, i, name, k);
    RenamedInTree(t, p, name);
    b.ts := Edited(ts, j, j + 1, [k]);
    NowValid(b);
    NowHolds(b, Replace(t, p, n.(name := name)));
  }

  lemma RenamedToken(ts: seq<Token>, tail: seq<Byte>, strs: seq<Byte>, s: seq<Byte>, w: seq<Byte>, i: nat,
          name: seq<Byte>, k: Token)
    requires AllWf(ts) && NamesOk(ts, strs) && i < |Events(ts, strs)| && Events(ts, strs)[i].Enter?
      && s == Block(ts, tail) && 0 !in name
    requires var o, n := EvOff(ts, i), 4 + Align4(|name| + 1);
      && Tok(ts, i) < |ts| && Around(s, w, o, Off(ts, Tok(ts, i) + 1), n) && o + n <= |w|
      && w[o..o + 4] == PutU32(BEGIN_NODE) && w[o + 4..o + 4 + (|name| + 1)] == name + [0]
      && k == BeginNode(name, w[o + 4 + (|name| + 1)..o + n])
    ensures var j := Tok(ts, i); var us := Edited(ts, j, j + 1, [k]);
      && AllWf(us) && NamesOk(us, strs) && w == Block(us, tail)
      && Events(us, strs) == Events(ts, strs)[..i] + [Enter(name)] + Events(ts, strs)[i + 1..]
      && Kept(ts, us, i)
  {
    hide *;
    var j := Tok(ts, i);
    var us := Edited(ts, j, j + 1, [k]);
    OffOfEvent(ts, i, j);
    NameBytes(w, Off(ts, j), name);
    BeginSize(name, k.pad, strs);
    EventsAround(ts, strs, i);
    OneToken(ts, tail, strs, s, w, j, j + 1, k);
    EditedAt(ts, j, j + 1, k);
    OffOfEvent(us, i, j);
    if i > 0 { BeforeEvent(ts, strs, i); KeptBefore(ts, us, i - 1, j); }
    KeptOneMore(ts, us, i);
  }

  // ---------- adding ----------

  /** The place behind a node's properties and fillers. */
  method SkipProps(b: Blob, parent: int, ghost i: nat, ghost n: Node) returns (offset: nat)
    requires b.Valid() && InTree(b.Line(), i, n) && parent == EvOff(b.ts, i)
    ensures offset == EvOff(b.ts, i + 1 + |n.props|)
  {
    hide *;
    Known(b);
    TagsDiffer();
    ghost var ts, strs, es := b.ts, b.Strings(), b.Line();
    NodeSpan(es, i, n);
    InTreeEnds(es, i, n);
    CursorBehind(ts, strs, i);
    OffOfEvent(ts, i, Tok(ts, i));
    ghost var j, k := Tok(ts, i) + 1, 0;
    PropAt(es, i, n, 0);
    var tag, next := TagHere(b, parent, Tok(ts, i));
    while true
      invariant k <= |n.props| && i + 1 + k < |es|
      invariant j <= |ts| && Cursor(ts, strs, j, i + 1 + k) && next == Off(ts, j)
      decreases |ts| - j
    {
      var here := next;
      tag, next := TagHere(b, here, j);
      if j == |ts| { CursorEnd(ts, strs, i + 1 + k); }
      Advance(ts, strs, j, i + 1 + k, tag);
      PropAt(es, i, n, k);
      if tag != PROP && tag != NOP {
        OffOfEvent(ts, i + 1 + k, j);
        return here;
      }
      if tag == PROP {
        k := k + 1;
        PropAt(es, i, n, k);
      }
      j := j + 1;
    }
  }

  /** Two tokens put between others, in bytes and in events. */
  lemma InsertedNode(ts: seq<Token>, tail: seq<Byte>, strs: seq<Byte>, s: seq<Byte>, u: seq<Byte>, x: nat, k: Token)
    requires AllWf(ts) && NamesOk(ts, strs) && 0 < x < |Events(ts, strs)| && s == Block(ts, tail)
    requires k.BeginNode? && Wf(k)
    requires var o, n := EvOff(ts, x), |Bytes(k)|;
      Around(s, u, o, o, n + 4) && o + n + 4 <= |u| && u[o..o + n] == Bytes(k)
        && u[o + n..o + n + 4] == PutU32(END_NODE)
    ensures Tok(ts, x) < |ts|
    ensures var j := Tok(ts, x); var us := Edited(ts, j, j, [k, EndNode]);
      && AllWf(us) && NamesOk(us, strs) && u == Block(us, tail)
      && Events(us, strs) == Events(ts, strs)[..x] + [Enter(k.name), Leave] + Events(ts, strs)[x..]
      && Kept(ts, us, x - 1) && EvOff(us, x) == EvOff(ts, x)
  {
    hide *;
    var j, mid := Tok(ts, x), [k, EndNode];
    var us := Edited(ts, j, j, mid);
    CursorBehind(ts, strs, x);
    OffOfEvent(ts, x, j);
    NodePair(k, strs);
    OffOrder(ts, j, j, s, tail);
    AroundFacts(s, u, Off(ts, j), Off(ts, j), |Bytes(k)| + 4);
    CutInThree(u, Off(ts, j), Off(ts, j), Off(ts, j) + |Bytes(k)|, Off(ts, j) + |Bytes(k)| + 4);
    assert u[Off(ts, j)..Off(ts, j)] == [];
    Rebuilt(s, u, ts, tail, j, j, mid);
    EditedEvents(ts, j, j, mid, strs);
    EventsAround(ts, strs, x);
    PairEdited(ts, j, k);
    BeforeEvent(ts, strs, x);
    KeptBefore(ts, us, x - 1, j);
    TokOf(us, strs, j);
    OffSame(ts, us, j);
    OffOfEvent(us, x, j);
  }

  lemma NodePair(k: Token, strs: seq<Byte>)
    requires k.BeginNode? && Wf(k)
    ensures AllWf([k, EndNode]) && NamesOk([k, EndNode], strs)
    ensures Encode([k, EndNode]) == Bytes(k) + PutU32(END_NODE) && |Encode([k, EndNode])| == |Bytes(k)| + 4
    ensures Events([k, EndNode], strs) == [Enter(k.name), Leave]
  {
    assert [k, EndNode][1..] == [EndNode];
    EncodeOne(EndNode);
    EventsOne(EndNode, strs);
    assert Bytes(EndNode) == PutU32(END_NODE) + [];
    assert Bytes(EndNode) == PutU32(END_NODE);
  }

  lemma PairEdited(ts: seq<Token>, j: nat, k: Token)
    requires j <= |ts| && k.BeginNode?
    ensures var us := Edited(ts, j, j, [k, EndNode]); j < |us| && us[j] == k && us[..j] == ts[..j]
  {}

  /** The bytes of a new node: tag, zeros with the name over them, end tag. */
  lemma NodeWritten(s: seq<Byte>, t: seq<Byte>, u: seq<Byte>, v: seq<Byte>, w: seq<Byte>, z: seq<Byte>, o: nat,
          name: seq<Byte>, a: nat, zeros: seq<Byte>)
    requires Spliced(s, t, o, 0, 4 + a + 4) && a == |zeros| == Align4(|name| + 1)
      && forall i :: 0 <= i < a ==> zeros[i] == 0
    requires Written(t, u, o, PutU32(BEGIN_NODE)) && Written(u, v, o + 4, zeros) && Written(v, w, o + 4, name)
    requires Written(w, z, o + 4 + a, PutU32(END_NODE))
    ensures Around(s, z, o, o, 4 + a + 4) && o + 4 + a + 4 <= |z|
    ensures z[o..o + 4] == PutU32(BEGIN_NODE) && z[o + 4..o + 4 + (|name| + 1)] == name + [0]
    ensures z[o + 4 + a..o + 4 + a + 4] == PutU32(END_NODE)
  {
    SplicedSize(s, t, o, 0, 4 + a + 4);
    hide *;
    WrittenHere(t, u, o, PutU32(BEGIN_NODE));
    WrittenHere(u, v, o + 4, zeros);
    WrittenHere(v, w, o + 4, name);
    NodeAround(s, t, u, v, w, z, o, name, a, zeros);
    NodeNamed(u, v, w, z, o + 4, name, a, zeros);
  }

  lemma NodeAround(s: seq<Byte>, t: seq<Byte>, u: seq<Byte>, v: seq<Byte>, w: seq<Byte>, z: seq<Byte>, o: nat,
          name: seq<Byte>, a: nat, zeros: seq<Byte>)
    requires Spliced(s, t, o, 0, 4 + a + 4) && o <= |s| && a == |zeros| && |name| < a
    requires Written(t, u, o, PutU32(BEGIN_NODE)) && Written(u, v, o + 4, zeros) && Written(v, w, o + 4, name)
    requires Written(w, z, o + 4 + a, PutU32(END_NODE))
    ensures Around(s, z, o, o, 4 + a + 4) && o + 4 + a + 4 <= |z| && z[o..o + 4] == PutU32(BEGIN_NODE)
  {
    hide *;
    var n := 4 + a + 4;
    AroundSpliced(s, t, o, 0, n, o, o, n);
    AroundWritten(s, t, u, o, PutU32(BEGIN_NODE), o, o, n);
    AroundWritten(s, u, v, o + 4, zeros, o, o, n);
    AroundWritten(s, v, w, o + 4, name, o, o, n);
    AroundWritten(s, w, z, o + 4 + a, PutU32(END_NODE), o, o, n);
    AroundFacts(s, z, o, o, n);
    WrittenHere(t, u, o, PutU32(BEGIN_NODE));
    WrittenHere(u, v, o + 4, zeros);
    WrittenHere(v, w, o + 4, name);
    WrittenElsewhere(u, v, o + 4, zeros, o, o + 4);
    WrittenElsewhere(v, w, o + 4, name, o, o + 4);
    WrittenElsewhere(w, z, o + 4 + a, PutU32(END_NODE), o, o + 4);
  }

  lemma NodeNamed(u: seq<Byte>, v: seq<Byte>, w: seq<Byte>, z: seq<Byte>, p: nat, name: seq<Byte>, a: nat,
          zeros: seq<Byte>)
    requires a == |zeros| && |name| < a && (forall i :: 0 <= i < a ==> zeros[i] == 0) && p + a + 4 <= |u|
    requires Written(u, v, p, zeros) && Written(v, w, p, name) && Written(w, z, p + a, PutU32(END_NODE))
    ensures p + a + 4 <= |z| && z[p..p + (|name| + 1)] == name + [0] && z[p + a..p + a + 4] == PutU32(END_NODE)
  {
    hide *;
    var m := p + |name|;
    WrittenHere(u, v, p, zeros);
    WrittenHere(v, w, p, name);
    WrittenHere(w, z, p + a, PutU32(END_NODE));
    WrittenElsewhere(v, w, p, name, m, m + 1);
    WrittenElsewhere(w, z, p + a, PutU32(END_NODE), p, m);
    WrittenElsewhere(w, z, p + a, PutU32(END_NODE), m, m + 1);
    OneZero(v, p, zeros, |name|);
    NameAndZero(z, p, m, name);
  }

  lemma NameAndZero(z: seq<Byte>, p: nat, m: nat, name: seq<Byte>)
    requires m == p + |name| && m + 1 <= |z| && z[p..m] == name && z[m..m + 1] == [0]
    ensures z[p..p + (|name| + 1)] == name + [0]
  {}

  lemma OneZero(v: seq<Byte>, o: nat, zeros: seq<Byte>, k: nat)
    requires o + |zeros| <= |v| && v[o..o + |zeros|] == zeros && k < |zeros|
      && forall i :: 0 <= i < |zeros| ==> zeros[i] == 0
    ensures v[o + k..o + k + 1] == [0]
  {
    assert v[o..o + |zeros|][k] == v[o + k];
  }

  lemma ChildAdded(n: Node, name: seq<Byte>)
    ensures 1 + |n.props| <= |Flatten(n)|
    ensures Flatten(n.(children := [Node(name, [], [])] + n.children)) ==
      Patch(Flatten(n), 1 + |n.props|, 1 + |n.props|, [Enter(name), Leave])
  {
    var m := n.(children := [Node(name, [], [])] + n.children);
    var h, f, mid := [Enter(n.name)] + Attrs(n.props), FlattenAll(n.children), [Enter(name), Leave];
    assert Flatten(n) == h + f + [Leave] && Flatten(m) == h + FlattenAll(m.children) + [Leave];
    hide *;
    HeadLength(n);
    ChildrenWithNew(n.children, name);
    PatchInside(h, f, [Leave], 0, 0, mid);
  }

  lemma HeadLength(n: Node)
    ensures |[Enter(n.name)] + Attrs(n.props)| == 1 + |n.props|
  {}

  lemma ChildrenWithNew(ns: seq<Node>, name: seq<Byte>)
    ensures FlattenAll([Node(name, [], [])] + ns) == Patch(FlattenAll(ns), 0, 0, [Enter(name), Leave])
  {
    var e := Node(name, [], []);
    assert Flatten(e) == [Enter(name), Leave];
    FlattenConcat([e], ns);
    FlattenOne(e);
    var f := FlattenAll(ns);
    assert f[..0] + [Enter(name), Leave] + f[0..] == [Enter(name), Leave] + f;
  }

  /** The node with an empty child in front of the others. */
  ghost function WithChild(n: Node, name: seq<Byte>): Node {
    n.(children := [Node(name, [], [])] + n.children)
  }

  lemma ChildInTree(t: Node, p: Path, name: seq<Byte>)
    requires HasPath(t, p)
    ensures var x := Place(t, p) + 1 + |At(t, p).props|;
      x <= |Flatten(t)| && Flatten(Replace(t, p, WithChild(At(t, p), name))) ==
        Flatten(t)[..x] + [Enter(name), Leave] + Flatten(t)[x..]
  {
    var n := At(t, p);
    ChildAdded(n, name);
    assert WithChild(n, name) == n.(children := [Node(name, [], [])] + n.children);
    hide *;
    PatchTree(t, p, 1 + |n.props|, 1 + |n.props|, [Enter(name), Leave], WithChild(n, name));
    PatchHere(Flatten(t), Place(t, p) + 1 + |n.props|, [Enter(name), Leave]);
  }

  lemma PatchHere(es: seq<Event>, x: nat, mid: seq<Event>)
    requires x <= |es|
    ensures Patch(es, x, x, mid) == es[..x] + mid + es[x..]
  {}

  /** What an empty node takes: two tags and its name. */
  function NodeRoom(name: seq<Byte>): nat {
    4 + Align4(|name| + 1) + 4
  }

  lemma NodeRoomIs(name: seq<Byte>)
    ensures NodeRoom(name) == 4 + Align4(|name| + 1) + 4 && ERR_NOSPACE == 3
  {}

  /** Adds an empty node in front of the children, unless a child matches the name already. */
  method AddSubnode(b: Blob, parent: int, name: seq<Byte>, ghost t: Node, ghost p: Path) returns (r: int)
    requires Holds(b, t) && HasPath(t, p) && parent == EvOff(b.ts, Place(t, p)) && 0 !in name
    modifies b, b.buf
    ensures b.Valid() && b.Front() == old(b.Front()) && b.Strings() == old(b.Strings())
    ensures b.totalsize == old(b.totalsize) && b.DataSize() == old(b.DataSize()) + if r >= 0 then NodeRoom(name) else 0
    ensures if FindChild(At(t, p).children, name) < |At(t, p).children| then r == -ERR_EXISTS
      else if old(b.DataSize()) + NodeRoom(name) > b.totalsize then r == -ERR_NOSPACE else r >= 0
    ensures r < 0 ==> Holds(b, t) && b.ts == old(b.ts)
    ensures r >= 0 ==> Holds(b, Replace(t, p, WithChild(At(t, p), name))) && Kept(old(b.ts), b.ts, Place(t, p))
    ensures r >= 0 ==> r == EvOff(b.ts, Place(t, p) + 1 + |At(t, p).props|)
  {
    hide *;
    HoldsFacts(b, t);
    Known(b);
    TagsDiffer();
    Placed(t, p);
    ghost var n, i, ts, tail, strs, s := At(t, p), Place(t, p), b.ts, b.tail, b.Strings(), b.Struct();
    FindChildBound(n.children, name);
    NodeRoomIs(name);
    var offset := SubnodeOffset(b, parent, name, i, n);
    if offset >= 0 { return -ERR_EXISTS; }
    if offset != -ERR_NOTFOUND { return offset; }
    ghost var x := i + 1 + |n.props|;
    PropAt(b.Line(), i, n, |n.props|);
    PlaceInBlock(ts, strs, s, tail, x);
    offset := SkipProps(b, parent, i, n);
    var err := InsertNode(b, offset, name);
    if err != 0 {
      NowValid(b);
      NowHolds(b, t);
      return err;
    }
    ghost var u, a := b.Struct(), Align4(|name| + 1);
    ghost var k := BeginNode(name, u[offset + 4 + (|name| + 1)..offset + 4 + a]);
    NameBytes(u, offset, name);
    BeginSize(name, k.pad, strs);
    InsertedNode(ts, tail, strs, s, u, x, k);
    ChildInTree(t, p, name);
    b.ts := Edited(ts, Tok(ts, x), Tok(ts, x), [k, EndNode]);
    NowValid(b);
    NowHolds(b, Replace(t, p, WithChild(n, name)));
    KeptLess(ts, b.ts, x - 1, i);
    return offset;
  }

  /** A node added is found under its name, and under that name without its unit address; other names as before. */
  lemma AddedIsFound(n: Node, name: seq<Byte>, s: seq<Byte>)
    ensures FindChild(WithChild(n, name).children, name) == 0
    ensures FindChild(WithChild(n, name).children, s) ==
      if name == s || ('@' as int !in s && s + ['@' as int] <= name) then 0 else 1 + FindChild(n.children, s)
  {
    var ns := WithChild(n, name).children;
    assert ns[1..] == n.children;
    NameMeans(name, name);
    NameMeans(name, s);
    hide NameMatches;
  }

  lemma FindChildBound(ns: seq<Node>, name: seq<Byte>)
    ensures FindChild(ns, name) <= |ns|
  {}

  lemma PlaceInBlock(ts: seq<Token>, strs: seq<Byte>, s: seq<Byte>, tail: seq<Byte>, x: nat)
    requires AllWf(ts) && NamesOk(ts, strs) && x < |Events(ts, strs)| && s == Block(ts, tail)
    ensures EvOff(ts, x) <= |s|
  {
    CursorBehind(ts, strs, x);
    OffOrder(ts, Tok(ts, x), Tok(ts, x), s, tail);
  }

  /** Room for an empty node, with its bytes filled in. */
  method InsertNode(b: Blob, nh: nat, name: seq<Byte>) returns (err: int)
    requires b.Layout() && nh <= b.sizeStruct && 0 !in name
    modifies b`sizeStruct, b`offStrings, b.buf
    ensures b.Layout() && b.Front() == old(b.Front()) && b.Strings() == old(b.Strings())
    ensures err == if old(b.DataSize()) + NodeRoom(name) > b.totalsize then -ERR_NOSPACE else 0
    ensures b.DataSize() == old(b.DataSize()) + if err == 0 then NodeRoom(name) else 0
    ensures err != 0 ==> b.Struct() == old(b.Struct())
    ensures err == 0 ==> var u, a := b.Struct(), Align4(|name| + 1);
      && Around(old(b.Struct()), u, nh, nh, 4 + a + 4) && nh + 4 + a + 4 <= |u|
      && u[nh..nh + 4] == PutU32(BEGIN_NODE) && u[nh + 4..nh + 4 + (|name| + 1)] == name + [0]
      && u[nh + 4 + a..nh + 4 + a + 4] == PutU32(END_NODE)
  {
    hide *;
    var a := Align4(|name| + 1);
    var nodelen := 4 + a + 4;
    NodeRoomIs(name);
    ghost var s := b.Struct();
    err := b.SpliceStruct(nh, 0, nodelen);
    if err != 0 { return; }
    ghost var s1 := b.Struct();
    SplicedSize(s, s1, nh, 0, nodelen);
    b.WriteStruct(nh, PutU32(BEGIN_NODE));
    ghost var s2 := b.Struct();
    var zeros: seq<Byte> := seq(a, _ => 0);
    b.WriteStruct(nh + 4, zeros);
    ghost var s3 := b.Struct();
    b.WriteStruct(nh + 4, name);
    ghost var s4 := b.Struct();
    b.WriteStruct(nh + nodelen - 4, PutU32(END_NODE));
    NodeWritten(s, s1, s2, s3, s4, b.Struct(), nh, name, a, zeros);
  }
}
