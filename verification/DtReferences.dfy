/** References inside an overlay: the cells listed by its local fixups move along with the phandles they name. */
module DtReferences {
  import opened DtFormat
  import opened DtTree
  import opened DtEvents
  import opened DtBlob
  import opened DtRead
  import opened DtEdit
  import opened DtProperties
  import opened DtNodes
  import opened DtOverlay
  import opened DtPhandles

  const ERR_BADOVERLAY: int := 16

  // ---------- cells of a value ----------

  function AddU32(x: U32, y: U32): U32 {
    (x + y) % WORD
  }

  /** The value with the word at one place moved on, modulo 2^32. */
  ghost function MoveCell(v: seq<Byte>, at: nat, delta: U32): (w: seq<Byte>)
    ensures |w| == |v|
  {
    if at + 4 <= |v| then v[..at] + PutU32(AddU32(GetU32(v, at), delta)) + v[at + 4..] else v
  }

  /** A fixup's value is a list of places, each one word. */
  ghost function CellAt(f: seq<Byte>, i: nat): U32
    requires 4 * i + 4 <= |f|
  {
    GetU32(f, 4 * i)
  }

  ghost function MoveCells(v: seq<Byte>, f: seq<Byte>, n: nat, delta: U32): (w: seq<Byte>)
    requires 4 * n <= |f|
    ensures |w| == |v|
  {
    if n == 0 then v else MoveCell(MoveCells(v, f, n - 1, delta), CellAt(f, n - 1), delta)
  }

  /** The listed words lie inside the value. */
  ghost predicate CellsFit(len: nat, f: seq<Byte>) {
    |f| % 4 == 0 && forall i :: 0 <= i < |f| / 4 ==> CellAt(f, i) + 4 <= len
  }

  /** No two of the first n listed words share a byte. */
  ghost predicate CellsApart(f: seq<Byte>, n: nat)
    requires 4 * n <= |f|
  {
    forall i, j :: 0 <= i < j < n ==> CellAt(f, i) + 4 <= CellAt(f, j) || CellAt(f, j) + 4 <= CellAt(f, i)
  }

  lemma CellMoved(v: seq<Byte>, at: nat, delta: U32)
    requires at + 4 <= |v|
    ensures GetU32(MoveCell(v, at, delta), at) == AddU32(GetU32(v, at), delta)
  {
    var w, u := MoveCell(v, at, delta), PutU32(AddU32(GetU32(v, at), delta));
    assert w[at..at + 4] == u;
    hide *;
    GetPut(AddU32(GetU32(v, at), delta), w, at);
  }

  lemma ByteKept(v: seq<Byte>, at: nat, delta: U32, x: nat)
    requires x < |v| && (x < at || at + 4 <= x)
    ensures MoveCell(v, at, delta)[x] == v[x]
  {
    hide AddU32, PutU32, GetU32;
  }

  lemma WordKept(v: seq<Byte>, at: nat, delta: U32, o: nat)
    requires o + 4 <= |v| && (o + 4 <= at || at + 4 <= o)
    ensures GetU32(MoveCell(v, at, delta), o) == GetU32(v, o)
  {
    hide MoveCell;
    ByteKept(v, at, delta, o);
    ByteKept(v, at, delta, o + 1);
    ByteKept(v, at, delta, o + 2);
    ByteKept(v, at, delta, o + 3);
  }

  /** A word not among the first n listed, nor overlapping one, keeps its value. */
  lemma {:induction false} WordUnlisted(v: seq<Byte>, f: seq<Byte>, n: nat, delta: U32, o: nat)
    requires 4 * n <= |f| && o + 4 <= |v|
    requires forall i :: 0 <= i < n ==> o + 4 <= CellAt(f, i) || CellAt(f, i) + 4 <= o
    ensures GetU32(MoveCells(v, f, n, delta), o) == GetU32(v, o)
  {
    if n > 0 {
      WordUnlisted(v, f, n - 1, delta, o);
      WordKept(MoveCells(v, f, n - 1, delta), CellAt(f, n - 1), delta, o);
    }
    hide GetU32, MoveCell;
  }

  /** A word listed once, apart from the others, is moved exactly once. */
  lemma {:induction false} WordListed(v: seq<Byte>, f: seq<Byte>, n: nat, delta: U32, i: nat)
    requires i < n && 4 * n <= |f| && CellsApart(f, n) && CellAt(f, i) + 4 <= |v|
    ensures GetU32(MoveCells(v, f, n, delta), CellAt(f, i)) == AddU32(GetU32(v, CellAt(f, i)), delta)
  {
    hide GetU32, MoveCell, CellAt, AddU32;
    var u := MoveCells(v, f, n - 1, delta);
    if i == n - 1 {
      WordUnlisted(v, f, n - 1, delta, CellAt(f, i));
      CellMoved(u, CellAt(f, i), delta);
    } else {
      WordListed(v, f, n - 1, delta, i);
      WordKept(u, CellAt(f, n - 1), delta, CellAt(f, i));
    }
  }

  /** How often the first n places listed are this one. */
  ghost function CountPlaces(f: seq<Byte>, n: nat, o: nat): nat
    requires 4 * n <= |f|
  {
    if n == 0 then 0 else CountPlaces(f, n - 1, o) + if CellAt(f, n - 1) == o then 1 else 0
  }

  /** Every one of the first n words listed is this word or shares no byte with it. */
  ghost predicate EqualOrApart(f: seq<Byte>, n: nat, o: nat)
    requires 4 * n <= |f|
  {
    forall i :: 0 <= i < n ==> CellAt(f, i) == o || CellAt(f, i) + 4 <= o || o + 4 <= CellAt(f, i)
  }

  /** A word moved on several times, modulo 2^32. */
  function Added(x: U32, times: nat, delta: U32): U32 {
    (x + times * delta) % WORD
  }

  lemma AddedNone(x: U32, delta: U32)
    ensures Added(x, 0, delta) == x && Added(x, 1, delta) == AddU32(x, delta)
  {}

  lemma AddedSum(x: U32, i: nat, j: nat, delta: U32)
    ensures Added(Added(x, i, delta), j, delta) == Added(x, i + j, delta)
  {
    var y := x + i * delta;
    assert y + j * delta == x + (i + j) * delta;
    assert (y % WORD + j * delta) % WORD == (y + j * delta) % WORD by { ModSum(y, j * delta); }
  }

  lemma ModSum(y: nat, z: nat)
    ensures (y % WORD + z) % WORD == (y + z) % WORD
  {
    var q := y / WORD;
    assert y == q * WORD + y % WORD;
    ModShift(y % WORD + z, q);
  }

  lemma {:induction false} ModShift(y: nat, q: nat)
    ensures (y + q * WORD) % WORD == y % WORD
  {
    if q > 0 {
      ModShift(y, q - 1);
      assert (y + q * WORD) == (y + (q - 1) * WORD) + WORD;
    }
  }

  /** A word is moved as often as it is listed, whatever else the list holds, as long as no other place overlaps it. */
  lemma {:induction false} WordCounted(v: seq<Byte>, f: seq<Byte>, n: nat, delta: U32, o: nat)
    requires 4 * n <= |f| && o + 4 <= |v| && EqualOrApart(f, n, o)
    ensures GetU32(MoveCells(v, f, n, delta), o) == Added(GetU32(v, o), CountPlaces(f, n, o), delta)
  {
    hide GetU32, MoveCell, CellAt, AddU32, Added;
    AddedNone(GetU32(v, o), delta);
    if n > 0 {
      var u, at := MoveCells(v, f, n - 1, delta), CellAt(f, n - 1);
      WordCounted(v, f, n - 1, delta, o);
      AddedNone(GetU32(u, o), delta);
      AddedSum(GetU32(v, o), CountPlaces(f, n - 1, o), 1, delta);
      if at == o { CellMoved(u, o, delta); } else { WordKept(u, at, delta, o); }
    }
  }

  /** A word ends where a single move would leave it exactly when the further moves cancel modulo 2^32. */
  lemma ListedOften(v: seq<Byte>, f: seq<Byte>, n: nat, delta: U32, o: nat)
    requires 4 * n <= |f| && o + 4 <= |v| && EqualOrApart(f, n, o)
    ensures GetU32(MoveCells(v, f, n, delta), o) == AddU32(GetU32(v, o), delta) <==>
      ((CountPlaces(f, n, o) - 1) * delta) % WORD == 0
  {
    WordCounted(v, f, n, delta, o);
    hide *;
    SingleMove(GetU32(v, o), CountPlaces(f, n, o), delta);
  }

  lemma SingleMove(x: U32, times: nat, delta: U32)
    ensures Added(x, times, delta) == AddU32(x, delta) <==> ((times - 1) * delta) % WORD == 0
  {
    assert x + times * delta == (x + delta) + (times - 1) * delta;
    SameRemainder(x + delta, (times - 1) * delta);
  }

  lemma SameRemainder(y: int, z: int)
    ensures (y + z) % WORD == y % WORD <==> z % WORD == 0
  {
    var a, b, c := y / WORD, z / WORD, (y + z) / WORD;
    assert y == a * WORD + y % WORD && z == b * WORD + z % WORD && y + z == c * WORD + (y + z) % WORD;
    assert (c - a - b) * WORD == y % WORD + z % WORD - (y + z) % WORD;
  }

  // ---------- a tree and its fixups ----------

  ghost predicate PropFixable(n: Node, a: Property) {
    Present(n, a.name) && CellsFit(|ValueOf(n, a.name)|, a.value)
  }

  ghost function FixProp(n: Node, a: Property, delta: U32): Node {
    if Present(n, a.name) && |a.value| % 4 == 0 then
      WithProp(n, a.name, MoveCells(ValueOf(n, a.name), a.value, |a.value| / 4, delta))
    else n
  }

  ghost function FixOwn(n: Node, ps: seq<Property>, delta: U32): Node {
    if ps == [] then n else FixProp(FixOwn(n, ps[..|ps| - 1], delta), ps[|ps| - 1], delta)
  }

  /** The tree with the references listed by the fixups moved: a node's own, then those of the children they name. */
  ghost function Fix(n: Node, f: Node, delta: U32): Node
    decreases f, 1
  {
    FixChildren(FixOwn(n, f.props, delta), f.children, delta)
  }

  ghost function FixChildren(n: Node, fs: seq<Node>, delta: U32): Node
    decreases fs, |fs|
  {
    if fs == [] then n else FixChild(FixChildren(n, fs[..|fs| - 1], delta), fs[|fs| - 1], delta)
  }

  ghost function FixChild(n: Node, f: Node, delta: U32): Node
    decreases f, 2
  {
    var c := FindChild(n.children, f.name);
    if c < |n.children| then n.(children := n.children[c := Fix(n.children[c], f, delta)]) else n
  }

  /** Everything the fixups name is there, and every word they list lies inside the value it is listed for. */
  ghost predicate Fixable(n: Node, f: Node)
    decreases f, 0
  {
    && (forall k :: 0 <= k < |f.props| ==> PropFixable(n, f.props[k]))
    && (forall k :: 0 <= k < |f.children| ==> ChildFixable(n, f.children[k]))
  }

  ghost predicate ChildFixable(n: Node, f: Node)
    decreases f, 1
  {
    FindChild(n.children, f.name) < |n.children| && Fixable(n.children[FindChild(n.children, f.name)], f)
  }

  // ---------- fixing changes no shape ----------

  /** The same names, value lengths and children, all the way down. */
  ghost predicate SameShape(n: Node, m: Node)
    decreases n, 1
  {
    m.name == n.name && SameLengths(n.props, m.props) && SameShapes(n.children, m.children)
  }

  ghost predicate SameLengths(ps: seq<Property>, qs: seq<Property>) {
    |qs| == |ps| && forall k :: 0 <= k < |ps| ==> qs[k].name == ps[k].name && |qs[k].value| == |ps[k].value|
  }

  ghost predicate SameShapes(ns: seq<Node>, ms: seq<Node>)
    decreases ns, 0
  {
    |ms| == |ns| && forall k :: 0 <= k < |ns| ==> SameShape(ns[k], ms[k])
  }

  lemma {:induction false} ShapeSelf(n: Node)
    ensures SameShape(n, n)
    decreases n
  {
    forall k | 0 <= k < |n.children|
      ensures SameShape(n.children[k], n.children[k])
    {
      ShapeSelf(n.children[k]);
    }
  }

  lemma {:induction false} ShapeChain(l: Node, m: Node, n: Node)
    requires SameShape(l, m) && SameShape(m, n)
    ensures SameShape(l, n)
    decreases l
  {
    forall k | 0 <= k < |l.children|
      ensures SameShape(l.children[k], n.children[k])
    {
      ShapeChain(l.children[k], m.children[k], n.children[k]);
    }
  }

  lemma ShapeProps(ps: seq<Property>, qs: seq<Property>, name: seq<Byte>)
    requires SameLengths(ps, qs)
    ensures FindProp(qs, name) == FindProp(ps, name)
  {
    FindPropIs(qs, name, FindProp(ps, name));
  }

  lemma {:induction false} ShapeChildren(ns: seq<Node>, ms: seq<Node>, name: seq<Byte>)
    requires SameShapes(ns, ms)
    ensures FindChild(ms, name) == FindChild(ns, name)
  {
    if ns != [] && !NameMatches(ns[0].name, name) { ShapeChildren(ns[1..], ms[1..], name); }
  }

  /** What can be fixed depends on the shape alone. */
  lemma {:induction false} ShapeFixable(n: Node, m: Node, f: Node)
    requires SameShape(n, m)
    ensures Fixable(n, f) <==> Fixable(m, f)
    decreases f, 0
  {
    forall k | 0 <= k < |f.props|
      ensures PropFixable(n, f.props[k]) <==> PropFixable(m, f.props[k])
    {
      ShapePropFixable(n, m, f.props[k]);
    }
    forall k | 0 <= k < |f.children|
      ensures ChildFixable(n, f.children[k]) <==> ChildFixable(m, f.children[k])
    {
      ShapeChildFixable(n, m, f.children[k]);
    }
  }

  lemma ShapePropFixable(n: Node, m: Node, a: Property)
    requires SameLengths(n.props, m.props)
    ensures PropFixable(n, a) <==> PropFixable(m, a)
  {
    ShapeProps(n.props, m.props, a.name);
    hide CellsFit;
  }

  lemma ShapeChildFixable(n: Node, m: Node, f: Node)
    requires SameShape(n, m)
    ensures ChildFixable(n, f) <==> ChildFixable(m, f)
    decreases f, 1
  {
    ShapeChildren(n.children, m.children, f.name);
    var c := FindChild(n.children, f.name);
    if c < |n.children| { ShapeFixable(n.children[c], m.children[c], f); }
  }

  lemma {:induction false} ShapeSize(n: Node, m: Node)
    requires SameShape(n, m)
    ensures |Flatten(m)| == |Flatten(n)|
    decreases n, 1
  {
    ShapeSizes(n.children, m.children);
    AttrsCount(n.props);
    AttrsCount(m.props);
  }

  lemma {:induction false} ShapeSizes(ns: seq<Node>, ms: seq<Node>)
    requires SameShapes(ns, ms)
    ensures |FlattenAll(ms)| == |FlattenAll(ns)|
    decreases ns, 0
  {
    if ns != [] {
      ShapeSize(ns[0], ms[0]);
      ShapeSizes(ns[1..], ms[1..]);
    }
  }

  lemma AttrsCount(ps: seq<Property>)
    ensures |Attrs(ps)| == |ps|
  {}

  lemma FixPropShape(n: Node, a: Property, delta: U32)
    ensures SameShape(n, FixProp(n, a, delta)) && FixProp(n, a, delta).children == n.children
  {
    ShapeSelf(n);
  }

  lemma {:induction false} FixOwnShape(n: Node, ps: seq<Property>, delta: U32)
    ensures SameShape(n, FixOwn(n, ps, delta)) && FixOwn(n, ps, delta).children == n.children
  {
    if ps == [] {
      ShapeSelf(n);
    } else {
      var m := FixOwn(n, ps[..|ps| - 1], delta);
      FixOwnShape(n, ps[..|ps| - 1], delta);
      FixPropShape(m, ps[|ps| - 1], delta);
      ShapeChain(n, m, FixOwn(n, ps, delta));
    }
  }

  lemma {:induction false} FixShape(n: Node, f: Node, delta: U32)
    ensures SameShape(n, Fix(n, f, delta))
    decreases f, 1
  {
    var m := FixOwn(n, f.props, delta);
    FixOwnShape(n, f.props, delta);
    FixChildrenShape(m, f.children, delta);
    ShapeChain(n, m, Fix(n, f, delta));
  }

  lemma {:induction false} FixChildrenShape(n: Node, fs: seq<Node>, delta: U32)
    ensures SameShape(n, FixChildren(n, fs, delta)) && FixChildren(n, fs, delta).props == n.props
    decreases fs, |fs|
  {
    if fs == [] {
      ShapeSelf(n);
    } else {
      var m := FixChildren(n, fs[..|fs| - 1], delta);
      FixChildrenShape(n, fs[..|fs| - 1], delta);
      FixChildShape(m, fs[|fs| - 1], delta);
      ShapeChain(n, m, FixChildren(n, fs, delta));
    }
  }

  lemma {:induction false} FixChildShape(n: Node, f: Node, delta: U32)
    ensures SameShape(n, FixChild(n, f, delta)) && FixChild(n, f, delta).props == n.props
    decreases f, 2
  {
    var c := FindChild(n.children, f.name);
    ShapeSelf(n);
    if c < |n.children| { FixShape(n.children[c], f, delta); }
  }

  // ---------- the calls ----------

  /** Writes into the value of a property, which has to be long enough; no offset changes. */
  method SetPropInplacePartial(b: Blob, node: int, name: seq<Byte>, idx: U32, val: seq<Byte>, ghost t: Node,
          ghost p: Path)
    returns (err: int)
    requires Holds(b, t) && HasPath(t, p) && node == EvOff(b.ts, Place(t, p)) && |val| + idx < WORD
    modifies b, b.buf
    ensures forall e: nat :: AllWf(old(b.ts)) && AllWf(b.ts) ==> EvOff(b.ts, e) == EvOff(old(b.ts), e)
    ensures err == if !Present(At(t, p), name) then -ERR_NOTFOUND
      else if |ValueOf(At(t, p), name)| < |val| + idx then -ERR_NOSPACE else 0
    ensures err != 0 ==> Holds(b, t)
    ensures err == 0 ==> var v := ValueOf(At(t, p), name);
      Holds(b, Replace(t, p, WithProp(At(t, p), name, v[..idx] + val + v[idx + |val|..])))
  {
    hide *;
    HoldsFacts(b, t);
    Codes();
    TagsDiffer();
    Placed(t, p);
    ghost var n, i := At(t, p), Place(t, p);
    ghost var k := FindProp(n.props, name);
    WordFacts(n, name);
    var prop, v := GetProperty(b, node, name, i, n);
    if prop < 0 { return prop; }
    FoundProp(t, p, name);
    ValueOfIs(n, name);
    RangeTestExact(|v|, idx, |val|);
    if !RangeTest(|v|, idx, |val|) { return -ERR_NOSPACE; }
    ghost var w := v[..idx] + val + v[idx + |val|..];
    ValueInTree(t, p, k, w);
    SetInPlace(n, name, w);
    WriteValue(b, prop, idx, val, i + 1 + k);
    NowHolds(b, Replace(t, p, WithProp(n, name, w)));
    return 0;
  }

  /** The range test as the call makes it, with the sum taken modulo 2^32. */
  predicate RangeTest(proplen: nat, idx: U32, len: U32) {
    !(proplen < (len + idx) % WORD)
  }

  /** Whether the bytes to be written lie inside the value. */
  predicate InsideValue(proplen: nat, idx: U32, len: U32) {
    idx + len <= proplen
  }

  /** What lies inside is accepted; what is accepted lies inside exactly when the sum does not wrap. */
  lemma RangeTestWraps(proplen: U32, idx: U32, len: U32)
    ensures InsideValue(proplen, idx, len) ==> RangeTest(proplen, idx, len)
    ensures RangeTest(proplen, idx, len) ==> (InsideValue(proplen, idx, len) <==> idx + len < WORD)
  {}

  lemma RangeTestExact(proplen: nat, idx: U32, len: U32)
    requires idx + len < WORD
    ensures RangeTest(proplen, idx, len) <==> idx + len <= proplen
  {}

  /**
    One word at a listed place: accepted although outside exactly for the last four places and values it wraps into.
  */
  lemma LastPlacesAccepted(proplen: U32, idx: U32)
    ensures RangeTest(proplen, idx, 4) && !InsideValue(proplen, idx, 4) <==>
      idx >= 0xffff_fffc && proplen >= idx - 0xffff_fffc
    ensures RangeTest(4, 0xffff_fffc, 4) && !InsideValue(4, 0xffff_fffc, 4)
  {}

  /** Listed places so large that adding four wraps are beyond the calls' own range test. */
  ghost predicate PlacesBounded(f: seq<Byte>) {
    forall i :: 0 <= i < |f| / 4 ==> CellAt(f, i) + 4 < WORD
  }

  /**
    A list that passes the range test place by place lies inside the value exactly when it holds none of the last four
    places.
  */
  lemma PlacesAccepted(len: U32, f: seq<Byte>)
    requires |f| % 4 == 0 && forall i :: 0 <= i < |f| / 4 ==> RangeTest(len, CellAt(f, i), 4)
    ensures CellsFit(len, f) <==> PlacesBounded(f)
  {
    hide CellAt, RangeTest;
    forall i | 0 <= i < |f| / 4
      ensures CellAt(f, i) + 4 <= len <==> CellAt(f, i) + 4 < WORD
    {
      RangeTestWraps(len, CellAt(f, i), 4);
    }
  }

  lemma CellsStart(n: Node, name: seq<Byte>, f: seq<Byte>, delta: U32)
    requires Present(n, name)
    ensures WithProp(n, name, MoveCells(ValueOf(n, name), f, 0, delta)) == n
    ensures CellsFit(|ValueOf(n, name)|, f) <==>
      |f| % 4 == 0 && forall i :: 0 <= i < |f| / 4 ==> CellAt(f, i) + 4 <= |ValueOf(n, name)|
  {
    var k := FindProp(n.props, name);
    assert n.props[k] == Property(name, ValueOf(n, name));
    assert n.props[k := Property(name, ValueOf(n, name))] == n.props;
  }

  lemma CellStep(n: Node, name: seq<Byte>, f: seq<Byte>, i: nat, delta: U32)
    requires Present(n, name) && 4 * i + 4 <= |f| && CellAt(f, i) + 4 <= |ValueOf(n, name)|
    ensures
      var v, at := MoveCells(ValueOf(n, name), f, i, delta), CellAt(f, i);
      MoveCells(ValueOf(n, name), f, i + 1, delta) == v[..at] + PutU32(AddU32(GetU32(v, at), delta)) + v[at + 4..]
  {}

  lemma CellSetTwice(t: Node, p: Path, name: seq<Byte>, v: seq<Byte>, w: seq<Byte>)
    requires HasPath(t, p) && Present(At(t, p), name)
    ensures
      var m := WithProp(At(t, p), name, v);
      var u := Replace(t, p, m);
      && HasPath(u, p) && At(u, p) == m && Place(u, p) == Place(t, p) && Present(m, name) && ValueOf(m, name) == v
      && Replace(u, p, WithProp(m, name, w)) == Replace(t, p, WithProp(At(t, p), name, w))
  {
    var n := At(t, p);
    var m := WithProp(n, name, v);
    SetThenGet(n, name, v, name);
    SetInPlace(n, name, v);
    assert WithProp(m, name, w) == WithProp(n, name, w);
    hide *;
    ReplaceAtPlace(t, p, m);
    ReplaceTwice(t, p, m, WithProp(m, name, w));
  }

  /** The word at a place of a value; what lies behind the value may be anything. */
  method ReadCell(b: Blob, node: int, name: seq<Byte>, at: U32, ghost t: Node, ghost p: Path) returns (adj: U32)
    requires Holds(b, t) && HasPath(t, p) && node == EvOff(b.ts, Place(t, p)) && Present(At(t, p), name)
    ensures at + 4 <= |ValueOf(At(t, p), name)| ==> adj == GetU32(ValueOf(At(t, p), name), at)
  {
    HoldsFacts(b, t);
    Placed(t, p);
    hide *;
    WordFacts(At(t, p), name);
    ValueOfIs(At(t, p), name);
    adj := *;
    var prop, v := GetProperty(b, node, name, Place(t, p), At(t, p));
    if at + 4 <= |v| { adj := GetU32(v, at); }
  }

  lemma OneCell(f: seq<Byte>, i: nat, len: nat)
    requires |f| % 4 == 0 && i < |f| / 4 && PlacesBounded(f)
    ensures 4 * i + 4 <= |f| && CellAt(f, i) == GetU32(f, 4 * i) && CellAt(f, i) + 4 < WORD
    ensures ERR_NOSPACE == 3 && ERR_BADOVERLAY == 16 && ERR_NOTFOUND == 1
    ensures CellsFit(len, f) ==> CellAt(f, i) + 4 <= len
  {}

  lemma FixPropIs(n: Node, name: seq<Byte>, f: seq<Byte>, delta: U32)
    requires Present(n, name) && |f| % 4 == 0
    ensures FixProp(n, Property(name, f), delta) == WithProp(n, name, MoveCells(ValueOf(n, name), f, |f| / 4, delta))
  {}

  /** Moves every word listed for one property. */
  method UpdateCells(b: Blob, node: int, name: seq<Byte>, fixup: seq<Byte>, delta: U32, ghost t: Node, ghost p: Path)
    returns (ret: int)
    requires Holds(b, t) && HasPath(t, p) && node == EvOff(b.ts, Place(t, p))
    requires Present(At(t, p), name) && |fixup| % 4 == 0 && PlacesBounded(fixup)
    modifies b, b.buf
    ensures b.Valid() && forall e: nat :: AllWf(old(b.ts)) && AllWf(b.ts) ==> EvOff(b.ts, e) == EvOff(old(b.ts), e)
    ensures ret == 0 || ret == -16
    ensures ret == 0 <==> CellsFit(|ValueOf(At(t, p), name)|, fixup)
    ensures ret == 0 ==> Holds(b, Replace(t, p, FixProp(At(t, p), Property(name, fixup), delta)))
  {
    hide *;
    HoldsFacts(b, t);
    ghost var n, ts := At(t, p), b.ts;
    WordFacts(n, name);
    ghost var v := ValueOf(n, name);
    CellsStart(n, name, fixup, delta);
    ReplaceSame(t, p);
    var len := |fixup| / 4;
    for i := 0 to len
      invariant b.Valid() && AllWf(b.ts) && Holds(b, Replace(t, p, WithProp(n, name, MoveCells(v, fixup, i, delta))))
      invariant forall e: nat :: EvOff(b.ts, e) == EvOff(ts, e)
      invariant forall j :: 0 <= j < i ==> CellAt(fixup, j) + 4 <= |v|
    {
      ghost var w := MoveCells(v, fixup, i, delta);
      OneCell(fixup, i, |v|);
      var poffset := GetU32(fixup, 4 * i);
      ghost var w1 := if poffset + 4 <= |v| then w[..poffset] + PutU32(AddU32(GetU32(w, poffset), delta))
        + w[poffset + 4..] else w;
      CellSetTwice(t, p, name, w, w1);
      ghost var u := Replace(t, p, WithProp(n, name, w));
      var adj := ReadCell(b, node, name, poffset, u, p);
      ret := SetPropInplacePartial(b, node, name, poffset, PutU32(AddU32(adj, delta)), u, p);
      if ret != 0 {
        HoldsFacts(b, u);
        return if ret == -ERR_NOSPACE then -ERR_BADOVERLAY else ret;
      }
      CellStep(n, name, fixup, i, delta);
      HoldsFacts(b, Replace(t, p, WithProp(n, name, w1)));
    }
    FixPropIs(n, name, fixup, delta);
    return 0;
  }

  // ---------- a node, its fixups, and everything below ----------

  /** The fixups lie beside the node: in another branch, or directly below the root when that is the node. */
  predicate Beside(p: Path, q: Path) {
    if p == [] then |q| == 1 else q != [] && q[0] != p[0]
  }

  /** A change of the node that keeps its shape, and the fixups if they lie in it, leaves the fixups where they are. */
  lemma StillThere(t: Node, p: Path, q: Path, m: Node)
    requires HasPath(t, p) && HasPath(t, q) && Beside(p, q) && SameShape(At(t, p), m)
    requires p == [] ==> |m.children| == |t.children| && m.children[q[0]] == t.children[q[0]]
    ensures var u := Replace(t, p, m); HasPath(u, q) && At(u, q) == At(t, q) && Place(u, q) == Place(t, q)
  {
    var u, k := Replace(t, p, m), q[0];
    assert u.children[k] == t.children[k] && |u.props| == |t.props|;
    if p == [] {
      ShapeSizes(t.children[..k], m.children[..k]);
    } else {
      var c := p[0];
      var w := Replace(t.children[c], p[1..], m);
      ReplacedSize(t.children[c], p[1..], m);
      SiblingSizes(t.children, c, w, k);
    }
    BeforeSize(t, q);
    BeforeSize(u, q);
  }

  lemma BeforeSize(t: Node, q: Path)
    requires q != [] && HasPath(t, q)
    ensures Place(t, q) == 1 + |t.props| + |FlattenAll(t.children[..q[0]])| + Place(t.children[q[0]], q[1..])
  {
    AttrsCount(t.props);
  }

  lemma ReplacedSize(t: Node, p: Path, m: Node)
    requires HasPath(t, p) && SameShape(At(t, p), m)
    ensures |Flatten(Replace(t, p, m))| == |Flatten(t)|
  {
    hide *;
    ShapeSize(At(t, p), m);
    Focus(t, p, m);
  }

  lemma SiblingSizes(ns: seq<Node>, c: nat, w: Node, k: nat)
    requires c < |ns| && k < |ns| && |Flatten(w)| == |Flatten(ns[c])|
    ensures |FlattenAll(ns[c := w][..k])| == |FlattenAll(ns[..k])|
  {
    var ms := ns[c := w];
    if c < k {
      FlattenAt(ns[..k], c);
      FlattenAt(ms[..k], c);
      assert ms[..k][..c] == ns[..k][..c] && ms[..k][c + 1..] == ns[..k][c + 1..];
    } else {
      assert ms[..k] == ns[..k];
    }
  }

  /** No fixup below names the child that holds the fixups themselves. */
  ghost predicate NotItself(n: Node, f: Node, p: Path, q: Path) {
    p == [] && q != [] ==> forall j :: 0 <= j < |f.children| ==> FindChild(n.children, f.children[j].name) != q[0]
  }

  ghost predicate AllBounded(f: Node)
    decreases f
  {
    && (forall k :: 0 <= k < |f.props| ==> PlacesBounded(f.props[k].value))
    && (forall k :: 0 <= k < |f.children| ==> AllBounded(f.children[k]))
  }

  /** The references one fixup property lists. */
  method UpdateProp(b: Blob, node: int, prop: int, delta: U32, ghost t: Node, ghost p: Path, ghost q: Path,
          ghost k: nat)
    returns (ret: int)
    requires Holds(b, t) && HasPath(t, p) && HasPath(t, q) && k < |At(t, q).props|
    requires node == EvOff(b.ts, Place(t, p)) && prop == EvOff(b.ts, Place(t, q) + 1 + k)
    requires PlacesBounded(At(t, q).props[k].value)
    modifies b, b.buf
    ensures b.Valid() && forall e: nat :: AllWf(old(b.ts)) && AllWf(b.ts) ==> EvOff(b.ts, e) == EvOff(old(b.ts), e)
    ensures ret == 0 || ret == -16
    ensures ret == 0 <==> PropFixable(At(t, p), At(t, q).props[k])
    ensures ret == 0 ==> Holds(b, Replace(t, p, FixProp(At(t, p), At(t, q).props[k], delta)))
  {
    hide *;
    HoldsFacts(b, t);
    Known(b);
    TagsDiffer();
    ghost var n, a, x := At(t, p), At(t, q).props[k], Place(t, q) + 1 + k;
    PropInTree(t, q, k);
    CleanEvent(b.ts, b.Strings(), x);
    var nameoff, val := ReadProp(b, prop, x);
    HeldName(b, nameoff);
    var ok, name := GetString(b, nameoff);
    assert a == Property(name, val);
    FixableMeans(n, a);
    if |val| % 4 != 0 { return -ERR_BADOVERLAY; }
    Placed(t, p);
    WordFacts(n, name);
    var here, was := GetProperty(b, node, name, Place(t, p), n);
    if here == -ERR_NOTFOUND { return -ERR_BADOVERLAY; }
    if here < 0 { return here; }
    ret := UpdateCells(b, node, name, val, delta, t, p);
  }

  /** The references in a node's own properties. */
  method UpdateOwn(b: Blob, node: int, fixup: int, delta: U32, ghost t: Node, ghost p: Path, ghost q: Path)
    returns (ret: int)
    requires Holds(b, t) && HasPath(t, p) && HasPath(t, q) && Beside(p, q)
    requires node == EvOff(b.ts, Place(t, p)) && fixup == EvOff(b.ts, Place(t, q))
    requires forall k :: 0 <= k < |At(t, q).props| ==> PlacesBounded(At(t, q).props[k].value)
    modifies b, b.buf
    ensures b.Valid() && forall e: nat :: AllWf(old(b.ts)) && AllWf(b.ts) ==> EvOff(b.ts, e) == EvOff(old(b.ts), e)
    ensures ret == 0 || ret == -16
    ensures ret == 0 <==> forall k :: 0 <= k < |At(t, q).props| ==> PropFixable(At(t, p), At(t, q).props[k])
    ensures ret == 0 ==> Holds(b, Replace(t, p, FixOwn(At(t, p), At(t, q).props, delta)))
  {
    hide *;
    HoldsFacts(b, t);
    Known(b);
    TagsDiffer();
    Codes();
    ghost var n, ps, ts, i := At(t, p), At(t, q).props, b.ts, Place(t, q);
    Placed(t, q);
    PropInTree(t, q, 0);
    FixNothing(n, ps, delta);
    ReplaceSame(t, p);
    ghost var k := 0;
    var prop := FirstPropertyOffset(b, fixup, i);
    while prop >= 0
      invariant k <= |ps| && b.Valid() && AllWf(b.ts) && Holds(b, Replace(t, p, FixOwn(n, ps[..k], delta)))
      invariant prop == if k < |ps| then EvOff(b.ts, i + 1 + k) else -ERR_NOTFOUND
      invariant forall e: nat :: EvOff(b.ts, e) == EvOff(ts, e)
      invariant forall j :: 0 <= j < k ==> PropFixable(n, ps[j])
      decreases |ps| - k
    {
      ghost var u := Replace(t, p, FixOwn(n, ps[..k], delta));
      OwnTurn(t, p, q, k, delta);
      HoldsFacts(b, u);
      ret := UpdateProp(b, node, prop, delta, u, p, q, k);
      Known(b);
      if ret != 0 { return; }
      OwnDone(t, p, q, k, delta);
      StillOwn(t, p, q, k + 1, delta);
      ghost var u1 := Replace(t, p, FixOwn(n, ps[..k + 1], delta));
      HoldsFacts(b, u1);
      PropInTree(u1, q, k);
      PropInTree(u1, q, k + 1);
      prop := NextPropertyOffset(b, prop, i + 1 + k);
      k := k + 1;
    }
    assert ps[..k] == ps;
    ret := 0;
  }

  lemma FixNothing(n: Node, ps: seq<Property>, delta: U32)
    ensures FixOwn(n, ps[..0], delta) == n
  {}

  lemma FixableMeans(n: Node, a: Property)
    ensures PropFixable(n, a) <==> Present(n, a.name) && CellsFit(|ValueOf(n, a.name)|, a.value)
    ensures Present(n, a.name) && CellsFit(|ValueOf(n, a.name)|, a.value) ==> |a.value| % 4 == 0
    ensures ERR_BADOVERLAY == 16
  {}

  /** Before the turn of fixup k the fixups lie where they lay, and what can be fixed has not changed. */
  lemma StillOwn(t: Node, p: Path, q: Path, k: nat, delta: U32)
    requires HasPath(t, p) && HasPath(t, q) && Beside(p, q) && k <= |At(t, q).props|
    ensures var m := FixOwn(At(t, p), At(t, q).props[..k], delta);
      var u := Replace(t, p, m);
      && HasPath(u, p) && At(u, p) == m && Place(u, p) == Place(t, p)
      && HasPath(u, q) && At(u, q) == At(t, q) && Place(u, q) == Place(t, q)
      && SameShape(At(t, p), m)
  {
    var n, ps := At(t, p), At(t, q).props[..k];
    var m := FixOwn(n, ps, delta);
    FixOwnShape(n, ps, delta);
    ReplaceAtPlace(t, p, m);
    hide FixOwn, SameShape, Flatten, Before, FlattenAll;
    StillThere(t, p, q, m);
  }

  lemma OwnTurn(t: Node, p: Path, q: Path, k: nat, delta: U32)
    requires HasPath(t, p) && HasPath(t, q) && Beside(p, q) && k < |At(t, q).props|
    ensures var m, a := FixOwn(At(t, p), At(t, q).props[..k], delta), At(t, q).props[k];
      var u := Replace(t, p, m);
      && HasPath(u, p) && At(u, p) == m && Place(u, p) == Place(t, p)
      && HasPath(u, q) && At(u, q) == At(t, q) && Place(u, q) == Place(t, q)
      && (PropFixable(At(t, p), a) <==> PropFixable(m, a))
  {
    StillOwn(t, p, q, k, delta);
    var n, m := At(t, p), FixOwn(At(t, p), At(t, q).props[..k], delta);
    assert SameLengths(n.props, m.props);
    hide *;
    ShapePropFixable(n, m, At(t, q).props[k]);
  }

  lemma OwnDone(t: Node, p: Path, q: Path, k: nat, delta: U32)
    requires HasPath(t, p) && HasPath(t, q) && k < |At(t, q).props|
    ensures var ps := At(t, q).props;
      var m := FixOwn(At(t, p), ps[..k], delta);
      && HasPath(Replace(t, p, m), p) && At(Replace(t, p, m), p) == m
      && Replace(Replace(t, p, m), p, FixProp(m, ps[k], delta)) == Replace(t, p, FixOwn(At(t, p), ps[..k + 1], delta))
  {
    var ps := At(t, q).props;
    var m := FixOwn(At(t, p), ps[..k], delta);
    assert ps[..k + 1][..k] == ps[..k];
    ReplaceAt(t, p, m);
    ReplaceTwice(t, p, m, FixProp(m, ps[k], delta));
  }

  // ---------- the recursion ----------

  /** The node after its own references and those of the first k children of the fixups. */
  ghost function FixedSoFar(n: Node, f: Node, k: nat, delta: U32): Node
    requires k <= |f.children|
  {
    FixChildren(FixOwn(n, f.props, delta), f.children[..k], delta)
  }

  lemma FixedShape(n: Node, f: Node, k: nat, delta: U32)
    requires k <= |f.children|
    ensures SameShape(n, FixedSoFar(n, f, k, delta))
  {
    FixOwnShape(n, f.props, delta);
    FixChildrenShape(FixOwn(n, f.props, delta), f.children[..k], delta);
    ShapeChain(n, FixOwn(n, f.props, delta), FixedSoFar(n, f, k, delta));
  }

  lemma FixedEnds(n: Node, f: Node, delta: U32)
    ensures FixedSoFar(n, f, 0, delta) == FixOwn(n, f.props, delta)
    ensures FixedSoFar(n, f, |f.children|, delta) == Fix(n, f, delta)
  {
    assert f.children[..|f.children|] == f.children;
  }

  lemma FixedOneMore(n: Node, f: Node, k: nat, delta: U32)
    requires k < |f.children|
    ensures FixedSoFar(n, f, k + 1, delta) == FixChild(FixedSoFar(n, f, k, delta), f.children[k], delta)
  {
    var fs := f.children[..k + 1];
    assert fs[..|fs| - 1] == f.children[..k] && fs[|fs| - 1] == f.children[k];
  }

  /** A child no fixup names stays as it is. */
  lemma {:induction false} FixedElsewhere(n: Node, fs: seq<Node>, c: nat, delta: U32)
    requires c < |n.children| && forall j :: 0 <= j < |fs| ==> FindChild(n.children, fs[j].name) != c
    ensures var m := FixChildren(n, fs, delta); |m.children| == |n.children| && m.children[c] == n.children[c]
  {
    if fs != [] {
      var gs := fs[..|fs| - 1];
      var m := FixChildren(n, gs, delta);
      FixedElsewhere(n, gs, c, delta);
      FixChildrenShape(n, gs, delta);
      ShapeChildren(n.children, m.children, fs[|fs| - 1].name);
    }
  }

  lemma StillFixups(t: Node, p: Path, q: Path, k: nat, delta: U32)
    requires HasPath(t, p) && HasPath(t, q) && Beside(p, q) && k <= |At(t, q).children|
    requires NotItself(At(t, p), At(t, q), p, q)
    ensures var m := FixedSoFar(At(t, p), At(t, q), k, delta);
      var u := Replace(t, p, m);
      && HasPath(u, p) && At(u, p) == m && Place(u, p) == Place(t, p)
      && HasPath(u, q) && At(u, q) == At(t, q) && Place(u, q) == Place(t, q)
      && SameShape(At(t, p), m)
  {
    var n, f := At(t, p), At(t, q);
    var m := FixedSoFar(n, f, k, delta);
    FixedShape(n, f, k, delta);
    ReplaceAtPlace(t, p, m);
    if p == [] {
      FixOwnShape(n, f.props, delta);
      FixedElsewhere(FixOwn(n, f.props, delta), f.children[..k], q[0], delta);
    }
    hide FixedSoFar, FixOwn, FixChildren, SameShape, Flatten, Before, FlattenAll;
    StillThere(t, p, q, m);
  }

  /** The child the next fixup names, and the two paths one step down. */
  lemma ChildTurn(t: Node, p: Path, q: Path, k: nat, delta: U32)
    requires HasPath(t, p) && HasPath(t, q) && Beside(p, q) && k < |At(t, q).children|
    requires NotItself(At(t, p), At(t, q), p, q) && AllBounded(At(t, q))
    ensures
      var n, f, g := At(t, p), At(t, q), At(t, q).children[k];
      var m := FixedSoFar(n, f, k, delta);
      var u, c := Replace(t, p, m), FindChild(m.children, g.name);
      && HasPath(u, p) && At(u, p) == m && Place(u, p) == Place(t, p)
      && HasPath(u, q) && At(u, q) == f && Place(u, q) == Place(t, q)
      && HasPath(u, q + [k]) && At(u, q + [k]) == g && Place(u, q + [k]) == Place(t, q) + ChildPos(f, k)
      && AllBounded(g) && g < f && c <= |m.children|
      && (ChildFixable(n, g) <==> c < |m.children| && Fixable(m.children[c], g))
      && (c < |m.children| ==>
        && HasPath(u, p + [c]) && At(u, p + [c]) == m.children[c] && Place(u, p + [c]) == Place(t, p) + ChildPos(m, c)
        && Beside(p + [c], q + [k]) && NotItself(m.children[c], g, p + [c], q + [k])
        && Replace(u, p + [c], Fix(m.children[c], g, delta)) == Replace(t, p, FixedSoFar(n, f, k + 1, delta)))
  {
    var n, f, g := At(t, p), At(t, q), At(t, q).children[k];
    var m := FixedSoFar(n, f, k, delta);
    var u, c := Replace(t, p, m), FindChild(m.children, g.name);
    StillFixups(t, p, q, k, delta);
    ShapeChildFixable(n, m, g);
    ShapeChildren(n.children, m.children, g.name);
    FixedOneMore(n, f, k, delta);
    assert ChildFixable(m, g) <==> c < |m.children| && Fixable(m.children[c], g);
    BesideBelow(n, f, p, q, c, k);
    hide FixedSoFar, FixOwn, FixChildren, SameShape, Flatten, Before, FlattenAll, Fixable, ChildFixable, ChildPos;
    ChildPlace(u, q, k);
    if c < |m.children| {
      ChildPlace(u, p, c);
      ReplaceBelow(t, p, m, c, Fix(m.children[c], g, delta));
    }
  }

  lemma BesideBelow(n: Node, f: Node, p: Path, q: Path, c: nat, k: nat)
    requires Beside(p, q) && NotItself(n, f, p, q) && k < |f.children| && c == FindChild(n.children, f.children[k].name)
    ensures Beside(p + [c], q + [k]) && p + [c] != []
  {
    if p == [] { assert p + [c] == [c]; }
  }

  /**
    Moves the references the fixups list, in the node and in everything below it. Succeeds exactly when
    everything the fixups name is there.
  */
  method UpdateNodeReferences(b: Blob, node: int, fixup: int, delta: U32, ghost t: Node, ghost p: Path, ghost q: Path)
    returns (ret: int)
    requires Holds(b, t) && HasPath(t, p) && HasPath(t, q) && Beside(p, q)
    requires node == EvOff(b.ts, Place(t, p)) && fixup == EvOff(b.ts, Place(t, q))
    requires NotItself(At(t, p), At(t, q), p, q) && AllBounded(At(t, q))
    modifies b, b.buf
    ensures b.Valid() && forall e: nat :: AllWf(old(b.ts)) && AllWf(b.ts) ==> EvOff(b.ts, e) == EvOff(old(b.ts), e)
    ensures ret == 0 || ret == -16
    ensures ret == 0 <==> Fixable(At(t, p), At(t, q))
    ensures ret == 0 ==> Holds(b, Replace(t, p, Fix(At(t, p), At(t, q), delta)))
    decreases At(t, q), 0
  {
    hide *;
    HoldsFacts(b, t);
    Known(b);
    TagsDiffer();
    ghost var n, f, ts, i := At(t, p), At(t, q), b.ts, Place(t, q);
    BoundedOwn(f);
    FixableParts(n, f);
    ret := UpdateOwn(b, node, fixup, delta, t, p, q);
    Known(b);
    if ret != 0 { return; }
    FixedEnds(n, f, delta);
    StillFixups(t, p, q, 0, delta);
    HoldsFacts(b, Replace(t, p, FixedSoFar(n, f, 0, delta)));
    Placed(Replace(t, p, FixedSoFar(n, f, 0, delta)), q);
    ghost var k := 0;
    var child := FirstSubnode(b, fixup, i, f);
    while child >= 0
      invariant k <= |f.children| && b.Valid() && AllWf(b.ts) && Holds(b, Replace(t, p, FixedSoFar(n, f, k, delta)))
      invariant child == if k < |f.children| then EvOff(b.ts, i + ChildPos(f, k)) else -ERR_NOTFOUND
      invariant forall e: nat :: EvOff(b.ts, e) == EvOff(ts, e)
      invariant forall j :: 0 <= j < k ==> ChildFixable(n, f.children[j])
      decreases |f.children| - k
    {
      ghost var u := Replace(t, p, FixedSoFar(n, f, k, delta));
      ChildTurn(t, p, q, k, delta);
      HoldsFacts(b, u);
      ret := UpdateChild(b, node, child, delta, u, p, q, k);
      Known(b);
      if ret != 0 { return; }
      StillFixups(t, p, q, k + 1, delta);
      HoldsFacts(b, Replace(t, p, FixedSoFar(n, f, k + 1, delta)));
      Placed(Replace(t, p, FixedSoFar(n, f, k + 1, delta)), q);
      child := NextSubnode(b, child, i, f, k);
      k := k + 1;
    }
    ret := 0;
  }

  lemma BoundedOwn(f: Node)
    requires AllBounded(f)
    ensures forall k :: 0 <= k < |f.props| ==> PlacesBounded(f.props[k].value)
  {}

  lemma FixableParts(n: Node, f: Node)
    ensures Fixable(n, f) <==>
      && (forall k :: 0 <= k < |f.props| ==> PropFixable(n, f.props[k]))
      && (forall k :: 0 <= k < |f.children| ==> ChildFixable(n, f.children[k]))
  {}

  /** The references below one child of the fixups. */
  method UpdateChild(b: Blob, node: int, child: int, delta: U32, ghost t: Node, ghost p: Path, ghost q: Path,
          ghost k: nat)
    returns (ret: int)
    requires Holds(b, t) && HasPath(t, p) && HasPath(t, q) && k < |At(t, q).children|
    requires HasPath(t, q + [k]) && At(t, q + [k]) == At(t, q).children[k] && AllBounded(At(t, q).children[k])
    requires node == EvOff(b.ts, Place(t, p)) && child == EvOff(b.ts, Place(t, q + [k]))
    requires var c := FindChild(At(t, p).children, At(t, q).children[k].name);
      c < |At(t, p).children| ==>
        && HasPath(t, p + [c]) && At(t, p + [c]) == At(t, p).children[c]
        && Place(t, p + [c]) == Place(t, p) + ChildPos(At(t, p), c)
        && Beside(p + [c], q + [k]) && NotItself(At(t, p).children[c], At(t, q).children[k], p + [c], q + [k])
    modifies b, b.buf
    ensures b.Valid() && forall e: nat :: AllWf(old(b.ts)) && AllWf(b.ts) ==> EvOff(b.ts, e) == EvOff(old(b.ts), e)
    ensures ret == 0 || ret == -16
    ensures var m, g := At(t, p), At(t, q).children[k];
      var c := FindChild(m.children, g.name);
      && (ret == 0 <==> c < |m.children| && Fixable(m.children[c], g))
      && (ret == 0 ==> Holds(b, Replace(t, p + [c], Fix(m.children[c], g, delta))))
    decreases At(t, q + [k]), 1
  {
    hide *;
    HoldsFacts(b, t);
    Known(b);
    TagsDiffer();
    ghost var m, g := At(t, p), At(t, q).children[k];
    ghost var c := FindChild(m.children, g.name);
    FindChildBound(m.children, g.name);
    FixableMeans(m, Property([], []));
    Placed(t, q + [k]);
    Placed(t, p);
    var name := GetName(b, child, Place(t, q + [k]));
    var found := SubnodeOffset(b, node, name, Place(t, p), m);
    if found == -ERR_NOTFOUND { return -ERR_BADOVERLAY; }
    if found < 0 { return found; }
    ret := UpdateNodeReferences(b, found, child, delta, t, p + [c], q + [k]);
  }

  // ---------- the whole overlay ----------

  /** The name of the node that holds the fixups, in ASCII. */
  function LocalFixups(): seq<Byte> {
    [95, 95, 108, 111, 99, 97, 108, 95, 102, 105, 120, 117, 112, 115, 95, 95]
  }

  lemma LocalFixupsName()
    ensures LocalFixups() == Ascii("__local_fixups__")
  {}

  lemma RootIs(t: Node, n: Node)
    ensures HasPath(t, []) && At(t, []) == t && Place(t, []) == 0 && Replace(t, [], n) == n
  {}

  /** Moves all references inside the overlay, whose root lies at offset zero; an overlay without fixups has none. */
  method UpdateLocalReferences(b: Blob, delta: U32, ghost t: Node) returns (ret: int)
    requires Holds(b, t) && EvOff(b.ts, 0) == 0
    requires var c := FindChild(t.children, LocalFixups());
      c < |t.children| ==> NotItself(t, t.children[c], [], [c]) && AllBounded(t.children[c])
    modifies b, b.buf
    ensures b.Valid() && forall e: nat :: AllWf(old(b.ts)) && AllWf(b.ts) ==> EvOff(b.ts, e) == EvOff(old(b.ts), e)
    ensures ret == 0 || ret == -16
    ensures var c := FindChild(t.children, LocalFixups());
      && (ret == 0 <==> c == |t.children| || Fixable(t, t.children[c]))
      && (ret == 0 ==> Holds(b, if c == |t.children| then t else Fix(t, t.children[c], delta)))
  {
    hide *;
    HoldsFacts(b, t);
    Known(b);
    TagsDiffer();
    ghost var c := FindChild(t.children, LocalFixups());
    FindChildBound(t.children, LocalFixups());
    RootIs(t, t);
    Placed(t, []);
    var fixups := SubnodeOffset(b, 0, LocalFixups(), 0, t);
    if fixups < 0 {
      if fixups == -ERR_NOTFOUND { return 0; }
      return fixups;
    }
    RootIs(t, Fix(t, t.children[c], delta));
    ChildPlace(t, [], c);
    BelowRoot(c);
    ret := UpdateNodeReferences(b, 0, fixups, delta, t, [], [c]);
  }

  lemma BelowRoot(c: nat)
    ensures [] + [c] == [c] && Beside([], [c])
  {}
}
