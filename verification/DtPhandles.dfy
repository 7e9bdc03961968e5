/** Phandles: the largest one of a tree, and an overlay's phandles moved above it. */
module DtPhandles {
  import opened DtFormat
  import opened DtTree
  import opened DtEvents
  import opened DtBlob
  import opened DtRead
  import opened DtEdit
  import opened DtProperties
  import opened DtOverlay

  const ERR_BADPHANDLE: int := 6
  const ERR_NOPHANDLES: int := 17
  const NO_PHANDLE: U32 := 0xffff_ffff

  /** The two property names, in ASCII. */
  function PhandleName(): seq<Byte> {
    [112, 104, 97, 110, 100, 108, 101]
  }

  function LinuxName(): seq<Byte> {
    [108, 105, 110, 117, 120, 44] + PhandleName()
  }

  /** The names, letter by letter. */
  lemma PhandleNames()
    ensures PhandleName() == Ascii("phandle") && LinuxName() == Ascii("linux,phandle")
  {}

  /** The one-word value of a property, if it has one. */
  ghost predicate HasWord(n: Node, name: seq<Byte>) {
    FindProp(n.props, name) < |n.props| && |ValueOf(n, name)| == 4
  }

  ghost function WordOf(n: Node, name: seq<Byte>): U32
    requires HasWord(n, name)
  {
    GetU32(ValueOf(n, name), 0)
  }

  ghost function Phandle(n: Node): U32 {
    if HasWord(n, PhandleName()) then WordOf(n, PhandleName())
    else if HasWord(n, LinuxName()) then WordOf(n, LinuxName())
    else 0
  }

  method GetPhandle(b: Blob, node: int, ghost i: nat, ghost n: Node) returns (v: U32)
    requires b.Valid() && InTree(b.Line(), i, n) && node == EvOff(b.ts, i)
    ensures v == Phandle(n)
  {
    hide *;
    WordFacts(n, PhandleName());
    WordFacts(n, LinuxName());
    NotFoundCode();
    PhandleIs(n);
    var off, val := GetProperty(b, node, PhandleName(), i, n);
    if off < 0 || |val| != 4 {
      off, val := GetProperty(b, node, LinuxName(), i, n);
      if off < 0 || |val| != 4 { return 0; }
    }
    return GetU32(val, 0);
  }

  lemma NotFoundCode()
    ensures ERR_NOTFOUND == 1
  {}

  lemma PhandleIs(n: Node)
    ensures Phandle(n) ==
      if HasWord(n, PhandleName()) then WordOf(n, PhandleName())
        else if HasWord(n, LinuxName()) then WordOf(n, LinuxName()) else 0
  {}

  // ---------- every node is met on the walk ----------

  /** A node that begins somewhere in a line of siblings belongs to one of them. */
  lemma {:induction false} EnterAmong(ns: seq<Node>, x: nat) returns (c: nat, p: Path)
    requires x < |FlattenAll(ns)| && FlattenAll(ns)[x].Enter?
    ensures c < |ns| && HasPath(ns[c], p) && x == |FlattenAll(ns[..c])| + Place(ns[c], p)
    decreases ns, 0
  {
    var f := Flatten(ns[0]);
    if x < |f| {
      p := EnterInside(ns[0], x);
      c := 0;
      assert ns[..0] == [];
    } else {
      c, p := EnterAmong(ns[1..], x - |f|);
      assert ns[..c + 1] == [ns[0]] + ns[1..][..c];
      FlattenConcat([ns[0]], ns[1..][..c]);
      FlattenOne(ns[0]);
      c := c + 1;
    }
  }

  /** Every node that begins in a tree's line has a path. */
  lemma {:induction false} EnterInside(t: Node, x: nat) returns (p: Path)
    requires x < |Flatten(t)| && Flatten(t)[x].Enter?
    ensures HasPath(t, p) && Place(t, p) == x
    decreases t, 1
  {
    if x == 0 {
      p := [];
    } else {
      var h, b := [Enter(t.name)] + Attrs(t.props), FlattenAll(t.children);
      assert Flatten(t) == h + b + [Leave];
      var c, q := EnterAmong(t.children, x - |h|);
      p := [c] + q;
      assert p[1..] == q;
      assert Before(t, p) == h + FlattenAll(t.children[..c]) + Before(t.children[c], q);
    }
  }

  /** The largest phandle: no node has a larger one, and some node has it unless it is zero. */
  ghost predicate IsMaxPhandle(t: Node, max: U32) {
    && (forall p :: HasPath(t, p) ==> Phandle(At(t, p)) <= max)
    && (max > 0 ==> exists p :: HasPath(t, p) && Phandle(At(t, p)) == max)
  }

  /** The largest phandle among the nodes that begin before an event. */
  ghost predicate MaxBefore(t: Node, c: nat, max: U32) {
    && (forall p :: HasPath(t, p) && Place(t, p) < c ==> Phandle(At(t, p)) <= max)
    && (max > 0 ==> exists p :: HasPath(t, p) && Phandle(At(t, p)) == max)
  }

  lemma MaxStep(t: Node, q: Path, c: nat, max: U32, v: U32)
    requires HasPath(t, q) && Place(t, q) == c && v == Phandle(At(t, q)) && MaxBefore(t, c, max)
    ensures MaxBefore(t, c + 1, if v > max then v else max)
  {
    forall p | HasPath(t, p) && Place(t, p) < c + 1
      ensures Phandle(At(t, p)) <= if v > max then v else max
    {
      if Place(t, p) == c { SamePlace(t, p, q); }
    }
  }

  /** Different paths lead to different places. */
  lemma {:induction false} SamePlace(t: Node, p: Path, q: Path)
    requires HasPath(t, p) && HasPath(t, q) && Place(t, p) == Place(t, q)
    ensures p == q
    decreases p
  {
    if p != [] && q != [] {
      PlaceIn(t, p);
      PlaceIn(t, q);
      if p[0] < q[0] { ChildPosGrows(t, p[0], q[0]); }
      if q[0] < p[0] { ChildPosGrows(t, q[0], p[0]); }
      SamePlace(t.children[p[0]], p[1..], q[1..]);
      assert p == [p[0]] + p[1..] && q == [q[0]] + q[1..];
    } else {
      if p != [] { PlaceIn(t, p); }
      if q != [] { PlaceIn(t, q); }
    }
  }

  lemma PlaceIn(t: Node, p: Path)
    requires HasPath(t, p) && p != []
    ensures Place(t, p) == ChildPos(t, p[0]) + Place(t.children[p[0]], p[1..])
    ensures Place(t.children[p[0]], p[1..]) < |Flatten(t.children[p[0]])| && ChildPos(t, p[0]) > 0
  {
    Placed(t.children[p[0]], p[1..]);
  }

  lemma MaxOn(t: Node, c: nat, at: nat, max: U32)
    requires MaxBefore(t, c, max) && c <= at <= |Flatten(t)| && forall x :: c <= x < at ==> !Flatten(t)[x].Enter?
    ensures MaxBefore(t, at, max)
  {
    forall p | HasPath(t, p) && Place(t, p) < at
      ensures Phandle(At(t, p)) <= max
    {
      Placed(t, p);
    }
  }

  method FindMaxPhandle(b: Blob, ghost t: Node) returns (max: U32)
    requires Holds(b, t)
    ensures IsMaxPhandle(t, max)
  {
    hide *;
    HoldsFacts(b, t);
    Known(b);
    TagsDiffer();
    max := 0;
    var offset := -1;
    ghost var es, i: int := b.Line(), -1;
    NodesNotEmpty(t);
    NoneBefore(t);
    while true
      invariant -1 <= i < |es| && (if offset < 0 then i == -1 else i >= 0 && es[i].Enter? && offset == EvOff(b.ts, i))
      invariant MaxBefore(t, i + 1, max)
      decreases |es| - i
    {
      ghost var at, stop;
      var d;
      offset, d, at, stop := NextNode(b, offset, false, 0, i);
      UntrackedStop(es, b.ts, i, offset, d, at, stop);
      MaxOn(t, i + 1, if offset < 0 then |es| else at, max);
      if offset < 0 {
        WholeMax(t, max);
        return;
      }
      ghost var p := EnterInside(t, at);
      Placed(t, p);
      var value := GetPhandle(b, offset, at, At(t, p));
      MaxStep(t, p, at, max, value);
      if value > max { max := value; }
      i := at;
    }
  }

  lemma NoneBefore(t: Node)
    ensures MaxBefore(t, 0, 0)
  {}

  lemma WholeMax(t: Node, max: U32)
    requires MaxBefore(t, |Flatten(t)|, max)
    ensures IsMaxPhandle(t, max)
  {
    forall p | HasPath(t, p)
      ensures Phandle(At(t, p)) <= max
    {
      Placed(t, p);
    }
  }

  /** Without a depth the walk stops at the next node or at the end of the line. */
  lemma UntrackedStop(es: seq<Event>, ts: seq<Token>, i: int, r: int, d: int, at: nat, stop: Stop)
    requires -1 <= i < |es| && AllWf(ts) && Reached(es, ts, i, false, 0, r, d, at, stop)
    ensures i < at <= |es| && forall x :: i + 1 <= x < (if r < 0 then |es| else at) ==> !es[x].Enter?
    ensures r >= 0 ==> at < |es| && es[at].Enter? && r == EvOff(ts, at)
  {
    match stop
    case AtNode =>
    case Past =>
    case Nowhere =>
  }

  // ---------- moving phandles ----------

  ghost predicate Present(n: Node, name: seq<Byte>) {
    FindProp(n.props, name) < |n.props|
  }

  /** A property that may be moved: absent, or one word that stays below the reserved value. */
  ghost predicate Movable(n: Node, name: seq<Byte>, delta: U32) {
    Present(n, name) ==> HasWord(n, name) && WordOf(n, name) + delta < NO_PHANDLE
  }

  ghost function MoveWord(n: Node, name: seq<Byte>, delta: U32): Node {
    if HasWord(n, name) && WordOf(n, name) + delta < WORD then WithProp(n, name, PutU32(WordOf(n, name) + delta)) else n
  }

  /** A node with its own phandle properties moved. */
  ghost function MoveOwn(n: Node, delta: U32): Node {
    MoveWord(MoveWord(n, PhandleName(), delta), LinuxName(), delta)
  }

  /** A tree with all its phandles moved. */
  ghost function MoveAll(n: Node, delta: U32): Node
    decreases n, 1
  {
    MoveOwn(n, delta).(children := MoveEach(n.children, delta))
  }

  ghost function MoveEach(ns: seq<Node>, delta: U32): (ms: seq<Node>)
    ensures |ms| == |ns|
    decreases ns, 0
  {
    if ns == [] then [] else [MoveAll(ns[0], delta)] + MoveEach(ns[1..], delta)
  }

  lemma {:induction false} MoveEachAt(ns: seq<Node>, delta: U32, k: nat)
    requires k < |ns|
    ensures MoveEach(ns, delta)[k] == MoveAll(ns[k], delta)
  {
    if k > 0 { MoveEachAt(ns[1..], delta, k - 1); }
  }

  ghost predicate OwnMovable(n: Node, delta: U32) {
    Movable(n, PhandleName(), delta) && Movable(n, LinuxName(), delta)
  }

  /** Every node of the tree may be moved. */
  ghost predicate AllMovable(n: Node, delta: U32) {
    forall p :: HasPath(n, p) ==> OwnMovable(At(n, p), delta)
  }

  lemma MovedWord(n: Node, name: seq<Byte>, delta: U32, other: seq<Byte>)
    requires Movable(n, name, delta)
    ensures var m := MoveWord(n, name, delta);
      && (Present(m, name) <==> Present(n, name))
      && (Present(n, name) ==> HasWord(m, name) && WordOf(m, name) == WordOf(n, name) + delta)
      && (other != name ==> (Present(m, other) <==> Present(n, other)) && (HasWord(m, other) <==> HasWord(n, other)))
      && (other != name && HasWord(n, other) ==> WordOf(m, other) == WordOf(n, other))
      && m.children == n.children && m.name == n.name
  {
    if Present(n, name) {
      var v := PutU32(WordOf(n, name) + delta);
      SetThenGet(n, name, v, other);
      assert v[0..4] == v;
      GetPut(WordOf(n, name) + delta, v, 0);
    }
    hide PutU32, GetU32;
  }

  /** A node that names itself has its phandle moved, one that does not still has none. */
  lemma MovedPhandle(n: Node, delta: U32)
    requires OwnMovable(n, delta)
    ensures Phandle(MoveOwn(n, delta)) ==
      if Present(n, PhandleName()) || Present(n, LinuxName()) then Phandle(n) + delta else 0
    ensures MoveOwn(n, delta).children == n.children
  {
    NamesDiffer();
    hide PhandleName, LinuxName, MoveWord, Movable, HasWord, WordOf;
    MovedWord(n, PhandleName(), delta, LinuxName());
    MovableAfter(n, delta);
    MovedWord(MoveWord(n, PhandleName(), delta), LinuxName(), delta, PhandleName());
    PresentMeans(n, PhandleName(), delta);
    PresentMeans(n, LinuxName(), delta);
    PresentMeans(MoveWord(n, PhandleName(), delta), LinuxName(), delta);
    AbsentMeans(n, PhandleName());
    AbsentMeans(n, LinuxName());
    AbsentMeans(MoveWord(n, PhandleName(), delta), PhandleName());
    AbsentMeans(MoveOwn(n, delta), PhandleName());
    AbsentMeans(MoveOwn(n, delta), LinuxName());
  }

  lemma NamesDiffer()
    ensures PhandleName() != LinuxName() && 0 !in PhandleName() && 0 !in LinuxName()
  {}

  lemma PresentMeans(n: Node, name: seq<Byte>, delta: U32)
    requires Movable(n, name, delta)
    ensures Present(n, name) <==> HasWord(n, name)
  {}

  lemma AbsentMeans(n: Node, name: seq<Byte>)
    ensures !Present(n, name) ==> !HasWord(n, name)
  {}

  lemma MovableAfter(n: Node, delta: U32)
    requires OwnMovable(n, delta)
    ensures Movable(MoveWord(n, PhandleName(), delta), LinuxName(), delta)
  {
    LinuxAfter(n, delta);
  }

  lemma LinuxAfter(n: Node, delta: U32)
    requires Movable(n, PhandleName(), delta)
    ensures Movable(MoveWord(n, PhandleName(), delta), LinuxName(), delta) <==> Movable(n, LinuxName(), delta)
  {
    NamesDiffer();
    MovedWord(n, PhandleName(), delta, LinuxName());
    hide PhandleName, LinuxName, MoveWord;
  }

  lemma BaseBound(base: Node, max: U32, p: Path)
    requires IsMaxPhandle(base, max) && HasPath(base, p)
    ensures Phandle(At(base, p)) <= max
  {}

  lemma PhandleRange(o: Node, delta: U32)
    requires OwnMovable(o, delta) && Phandle(o) > 0
    ensures Phandle(o) + delta < NO_PHANDLE && (Present(o, PhandleName()) || Present(o, LinuxName()))
  {
    hide PhandleName, LinuxName, WordOf;
  }

  /** Adds to one phandle property in place; a property of the wrong size or a number out of range is refused. */
  method PhandleAddOffset(b: Blob, node: int, name: seq<Byte>, delta: U32, ghost t: Node, ghost p: Path)
    returns (ret: int)
    requires Holds(b, t) && HasPath(t, p) && node == EvOff(b.ts, Place(t, p))
    modifies b, b.buf
    ensures forall e: nat :: AllWf(old(b.ts)) && AllWf(b.ts) ==> EvOff(b.ts, e) == EvOff(old(b.ts), e)
    ensures ret == if !Present(At(t, p), name) then -ERR_NOTFOUND
      else if !HasWord(At(t, p), name) then -ERR_BADPHANDLE
      else if WordOf(At(t, p), name) + delta >= NO_PHANDLE then -ERR_NOPHANDLES else 0
    ensures if ret == 0 then Holds(b, Replace(t, p, MoveWord(At(t, p), name, delta))) else Holds(b, t)
  {
    hide *;
    HoldsFacts(b, t);
    TagsDiffer();
    Codes();
    Placed(t, p);
    ghost var n, i, k := At(t, p), Place(t, p), FindProp(At(t, p).props, name);
    WordFacts(n, name);
    var prop, val := GetProperty(b, node, name, i, n);
    if prop < 0 { return prop; }
    if |val| != 4 { return -ERR_BADPHANDLE; }
    FoundProp(t, p, name);
    var adj := GetU32(val, 0);
    if (adj + delta) % WORD < adj { SumWraps(adj, delta); return -ERR_NOPHANDLES; }
    SumWraps(adj, delta);
    adj := adj + delta;
    if adj == NO_PHANDLE { return -ERR_NOPHANDLES; }
    ghost var v := PutU32(adj);
    ValueInTree(t, p, k, v);
    SetInPlace(n, name, v);
    MovedIs(n, name, delta);
    WholeValue(n.props[k].value, v);
    WriteValue(b, prop, 0, PutU32(adj), i + 1 + k);
    NowHolds(b, Replace(t, p, MoveWord(n, name, delta)));
    return 0;
  }

  lemma Codes()
    ensures ERR_BADPHANDLE == 6 && ERR_NOPHANDLES == 17 && ERR_NOTFOUND == 1 && NO_PHANDLE == 0xffff_ffff
      && WORD == 0x1_0000_0000
  {}

  lemma SumWraps(x: U32, y: U32)
    ensures (x + y) % WORD < x <==> x + y >= WORD
  {}

  lemma WordFacts(n: Node, name: seq<Byte>)
    ensures var k := FindProp(n.props, name);
      && (Present(n, name) <==> k < |n.props|) && (HasWord(n, name) <==> k < |n.props| && |n.props[k].value| == 4)
      && (HasWord(n, name) ==> WordOf(n, name) == GetU32(n.props[k].value, 0))
  {}

  lemma MovedIs(n: Node, name: seq<Byte>, delta: U32)
    requires HasWord(n, name) && WordOf(n, name) + delta < WORD
    ensures MoveWord(n, name, delta) == WithProp(n, name, PutU32(WordOf(n, name) + delta))
  {}

  // ---------- a whole overlay ----------

  /** The children with the first k of them moved. */
  ghost function MovedUpTo(ns: seq<Node>, k: nat, delta: U32): (ms: seq<Node>)
    requires k <= |ns|
    ensures |ms| == |ns|
  {
    MoveEach(ns[..k], delta) + ns[k..]
  }

  lemma MovedOneMore(ns: seq<Node>, k: nat, delta: U32)
    requires k < |ns|
    ensures MovedUpTo(ns, k, delta)[k] == ns[k] && MovedUpTo(ns, k, delta)[..k] == MovedUpTo(ns, k + 1, delta)[..k]
    ensures MovedUpTo(ns, k + 1, delta) == MovedUpTo(ns, k, delta)[k := MoveAll(ns[k], delta)]
  {
    var a, b := MovedUpTo(ns, k, delta), MovedUpTo(ns, k + 1, delta);
    forall i | 0 <= i < |ns|
      ensures b[i] == a[k := MoveAll(ns[k], delta)][i]
    {
      if i < k {
        MoveEachAt(ns[..k], delta, i);
        MoveEachAt(ns[..k + 1], delta, i);
      } else if i == k {
        MoveEachAt(ns[..k + 1], delta, i);
      }
    }
  }

  /** The node on the way: its own phandles moved, and those of its first k children. */
  ghost function MovedSoFar(n: Node, k: nat, delta: U32): Node
    requires k <= |n.children|
  {
    MoveOwn(n, delta).(children := MovedUpTo(n.children, k, delta))
  }

  lemma MovedEnds(n: Node, delta: U32)
    requires OwnMovable(n, delta)
    ensures MovedSoFar(n, 0, delta) == MoveOwn(n, delta) && MovedSoFar(n, |n.children|, delta) == MoveAll(n, delta)
  {
    MovedPhandle(n, delta);
    assert MovedUpTo(n.children, 0, delta) == n.children;
    assert n.children[..|n.children|] == n.children;
    assert MovedUpTo(n.children, |n.children|, delta) == MoveEach(n.children, delta);
  }

  lemma {:induction false} MovableBelow(n: Node, delta: U32, k: nat)
    requires AllMovable(n, delta)
    ensures OwnMovable(n, delta) && (k < |n.children| ==> AllMovable(n.children[k], delta))
  {
    assert HasPath(n, []) && At(n, []) == n;
    if k < |n.children| {
      forall p | HasPath(n.children[k], p)
        ensures OwnMovable(At(n.children[k], p), delta)
      {
        assert ([k] + p)[1..] == p;
        assert HasPath(n, [k] + p) && At(n, [k] + p) == At(n.children[k], p);
      }
    }
  }

  lemma MovableWhole(n: Node, delta: U32)
    requires OwnMovable(n, delta) && forall k :: 0 <= k < |n.children| ==> AllMovable(n.children[k], delta)
    ensures AllMovable(n, delta)
  {
    forall p | HasPath(n, p)
      ensures OwnMovable(At(n, p), delta)
    {
      if p != [] { assert HasPath(n.children[p[0]], p[1..]); }
    }
  }

  /** One child's turn. */
  lemma MovedStep(t: Node, p: Path, n: Node, k: nat, delta: U32)
    requires HasPath(t, p) && k < |n.children|
    ensures var m, m1 := MovedSoFar(n, k, delta), MovedSoFar(n, k + 1, delta);
      var u := Replace(t, p, m);
      && |m.children| == |m1.children| == |n.children| && m.children[k] == n.children[k]
      && HasPath(u, p + [k]) && At(u, p + [k]) == n.children[k] && Place(u, p + [k]) == Place(t, p) + ChildPos(m, k)
      && Replace(u, p + [k], MoveAll(n.children[k], delta)) == Replace(t, p, m1)
      && ChildPos(m1, k) == ChildPos(m, k)
  {
    var m, m1 := MovedSoFar(n, k, delta), MovedSoFar(n, k + 1, delta);
    MovedOneMore(n.children, k, delta);
    ReplaceBelow(t, p, m, k, MoveAll(n.children[k], delta));
    assert m.(children := m.children[k := MoveAll(n.children[k], delta)]) == m1;
  }

  /** A node's own two properties. */
  method AdjustOwn(b: Blob, node: int, delta: U32, ghost t: Node, ghost p: Path) returns (ret: int)
    requires Holds(b, t) && HasPath(t, p) && node == EvOff(b.ts, Place(t, p))
    modifies b, b.buf
    ensures b.Valid() && forall e: nat :: AllWf(old(b.ts)) && AllWf(b.ts) ==> EvOff(b.ts, e) == EvOff(old(b.ts), e)
    ensures ret == 0 || ret == -6 || ret == -17
    ensures ret == 0 <==> OwnMovable(At(t, p), delta)
    ensures ret == 0 ==> Holds(b, Replace(t, p, MoveOwn(At(t, p), delta)))
  {
    hide *;
    HoldsFacts(b, t);
    Codes();
    ghost var n, ts := At(t, p), b.ts;
    ghost var m := MoveWord(n, PhandleName(), delta);
    OwnMeans(n, delta);
    LinuxMeans(n, delta);
    ReplaceAtPlace(t, p, m);
    ReplaceTwice(t, p, m, MoveWord(m, LinuxName(), delta));
    ReplaceSame(t, p);
    ret := PhandleAddOffset(b, node, PhandleName(), delta, t, p);
    if ret != 0 && ret != -ERR_NOTFOUND {
      HoldsFacts(b, t);
      return;
    }
    HoldsFacts(b, Replace(t, p, m));
    ghost var us := b.ts;
    ret := PhandleAddOffset(b, node, LinuxName(), delta, Replace(t, p, m), p);
    if ret == 0 || ret == -ERR_NOTFOUND {
      HoldsFacts(b, Replace(t, p, MoveOwn(n, delta)));
      return 0;
    }
    HoldsFacts(b, Replace(t, p, m));
  }

  lemma OwnMeans(n: Node, delta: U32)
    ensures OwnMovable(n, delta) <==> Movable(n, PhandleName(), delta) && Movable(n, LinuxName(), delta)
    ensures Movable(n, PhandleName(), delta) <==>
      !Present(n, PhandleName()) || (HasWord(n, PhandleName()) && WordOf(n, PhandleName()) + delta < NO_PHANDLE)
    ensures !Present(n, PhandleName()) ==> MoveWord(n, PhandleName(), delta) == n
    ensures MoveOwn(n, delta) == MoveWord(MoveWord(n, PhandleName(), delta), LinuxName(), delta)
  {
    hide PhandleName, LinuxName;
  }

  lemma LinuxMeans(n: Node, delta: U32)
    ensures var m := MoveWord(n, PhandleName(), delta);
      && (Movable(n, PhandleName(), delta) ==> (Movable(m, LinuxName(), delta) <==> Movable(n, LinuxName(), delta)))
      && (Movable(m, LinuxName(), delta) <==>
        !Present(m, LinuxName()) || (HasWord(m, LinuxName()) && WordOf(m, LinuxName()) + delta < NO_PHANDLE))
      && (!Present(m, LinuxName()) ==> MoveWord(m, LinuxName(), delta) == m)
  {
    hide PhandleName, LinuxName;
    if Movable(n, PhandleName(), delta) { LinuxAfter(n, delta); }
  }

  /** Moves the phandles of a node and of everything below it, in place: no offset changes. */
  method AdjustNodePhandles(b: Blob, node: int, delta: U32, ghost t: Node, ghost p: Path) returns (ret: int)
    requires Holds(b, t) && HasPath(t, p) && node == EvOff(b.ts, Place(t, p))
    modifies b, b.buf
    ensures b.Valid() && forall e: nat :: AllWf(old(b.ts)) && AllWf(b.ts) ==> EvOff(b.ts, e) == EvOff(old(b.ts), e)
    ensures ret == 0 || ret == -6 || ret == -17
    ensures ret == 0 <==> AllMovable(At(t, p), delta)
    ensures ret == 0 ==> Holds(b, Replace(t, p, MoveAll(At(t, p), delta)))
    decreases At(t, p)
  {
    hide *;
    HoldsFacts(b, t);
    TagsDiffer();
    ghost var n, i, ts := At(t, p), Place(t, p), b.ts;
    if AllMovable(n, delta) { MovableBelow(n, delta, 0); }
    ret := AdjustOwn(b, node, delta, t, p);
    Known(b);
    if ret != 0 { return; }
    MovedEnds(n, delta);
    ghost var k := 0;
    InPlaceNow(t, p, n, 0, delta);
    HoldsFacts(b, Replace(t, p, MovedSoFar(n, 0, delta)));
    var child := FirstSubnode(b, node, i, MovedSoFar(n, 0, delta));
    while child >= 0
      invariant k <= |n.children| && |MovedSoFar(n, k, delta).children| == |n.children|
      invariant b.Valid() && AllWf(b.ts) && Holds(b, Replace(t, p, MovedSoFar(n, k, delta)))
      invariant child == if k < |n.children| then EvOff(b.ts, i + ChildPos(MovedSoFar(n, k, delta), k))
        else -ERR_NOTFOUND
      invariant forall e: nat :: EvOff(b.ts, e) == EvOff(ts, e)
      invariant forall c :: 0 <= c < k ==> AllMovable(n.children[c], delta)
      decreases |n.children| - k
    {
      ghost var u := Replace(t, p, MovedSoFar(n, k, delta));
      if AllMovable(n, delta) { MovableBelow(n, delta, k); }
      MovedStep(t, p, n, k, delta);
      KthSmaller(n, k);
      ret := AdjustNodePhandles(b, child, delta, u, p + [k]);
      Known(b);
      if ret != 0 { return; }
      InPlaceNow(t, p, n, k + 1, delta);
      HoldsFacts(b, Replace(t, p, MovedSoFar(n, k + 1, delta)));
      child := NextSubnode(b, child, i, MovedSoFar(n, k + 1, delta), k);
      k := k + 1;
    }
    MovableWhole(n, delta);
    ret := 0;
  }

  lemma KthSmaller(n: Node, k: nat)
    requires k < |n.children|
    ensures n.children[k] < n
  {}

  lemma InPlaceNow(t: Node, p: Path, n: Node, k: nat, delta: U32)
    requires HasPath(t, p) && k <= |n.children|
    ensures var m := MovedSoFar(n, k, delta);
      |m.children| == |n.children| && InTree(Flatten(Replace(t, p, m)), Place(t, p), m)
  {
    var m := MovedSoFar(n, k, delta);
    ReplaceAtPlace(t, p, m);
    Placed(Replace(t, p, m), p);
  }
}
