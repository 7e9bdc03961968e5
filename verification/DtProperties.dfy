/** Setting, appending and deleting properties: what the calls do to the tree. */
module DtProperties {
  import opened DtFormat
  import opened DtTree
  import opened DtEvents
  import opened DtBlob
  import opened DtRead
  import opened DtEdit

  // ---------- a blob that holds a tree ----------

  ghost predicate Holds(b: Blob, t: Node)
    reads b, b.buf
  {
    b.Valid() && b.Line() == Flatten(t)
  }

  /** The event a node begins with. */
  ghost function Place(t: Node, p: Path): nat
    requires HasPath(t, p)
  {
    |Before(t, p)|
  }

  lemma HoldsFacts(b: Blob, t: Node)
    requires Holds(b, t)
    ensures b.Valid() && AllWf(b.ts) && b.Line() == Flatten(t)
  {}

  lemma NowHolds(b: Blob, t: Node)
    requires b.Valid() && b.Line() == Flatten(t)
    ensures Holds(b, t)
  {}

  lemma Placed(t: Node, p: Path)
    requires HasPath(t, p)
    ensures InTree(Flatten(t), Place(t, p), At(t, p))
    ensures Place(t, p) < |Flatten(t)| && Flatten(t)[Place(t, p)] == Enter(At(t, p).name)
  {
    Focus(t, p, At(t, p));
    NodesNotEmpty(At(t, p));
    Head(At(t, p), []);
    assert Flatten(At(t, p)) + [] == Flatten(At(t, p));
  }

  ghost function Patch(es: seq<Event>, x: nat, y: nat, mid: seq<Event>): seq<Event>
    requires x <= y <= |es|
  {
    es[..x] + mid + es[y..]
  }

  /** A change of a node's own events is the same change in the line of the tree. */
  lemma PatchTree(t: Node, p: Path, i: nat, j: nat, mid: seq<Event>, n: Node)
    requires HasPath(t, p) && i <= j <= |Flatten(At(t, p))| && Flatten(n) == Patch(Flatten(At(t, p)), i, j, mid)
    ensures Place(t, p) + j <= |Flatten(t)|
    ensures Flatten(Replace(t, p, n)) == Patch(Flatten(t), Place(t, p) + i, Place(t, p) + j, mid)
  {
    hide *;
    Focus(t, p, n);
    LengthIs(t, p);
    PatchInside(Before(t, p), Flatten(At(t, p)), After(t, p), i, j, mid);
  }

  lemma LengthIs(t: Node, p: Path)
    requires HasPath(t, p)
    ensures Place(t, p) == |Before(t, p)|
  {}

  lemma PatchInside(b: seq<Event>, f: seq<Event>, a: seq<Event>, i: nat, j: nat, mid: seq<Event>)
    requires i <= j <= |f|
    ensures b + Patch(f, i, j, mid) + a == Patch(b + f + a, |b| + i, |b| + j, mid)
  {
    var s := b + f + a;
    assert s[..|b| + i] == b + f[..i];
    assert s[|b| + j..] == f[j..] + a;
  }

  // ---------- properties of a node ----------

  /** The node with a property set: in its place when it exists, in front when it is new. */
  ghost function WithProp(n: Node, name: seq<Byte>, value: seq<Byte>): Node {
    var k := FindProp(n.props, name);
    n.(props := if k < |n.props| then n.props[k := Property(name, value)] else [Property(name, value)] + n.props)
  }

  /** The value of the first property with the name. */
  ghost function ValueOf(n: Node, name: seq<Byte>): (v: seq<Byte>)
    requires FindProp(n.props, name) < |n.props|
  {
    n.props[FindProp(n.props, name)].value
  }

  /** A property set is found again, and every other name is answered as before. */
  lemma SetThenGet(n: Node, name: seq<Byte>, value: seq<Byte>, other: seq<Byte>)
    ensures var m := WithProp(n, name, value);
      && FindProp(m.props, name) < |m.props| && ValueOf(m, name) == value
      && (other != name ==> (FindProp(m.props, other) < |m.props| <==> FindProp(n.props, other) < |n.props|))
      && (other != name && FindProp(n.props, other) < |n.props| ==> ValueOf(m, other) == ValueOf(n, other))
  {
    hide FindProp;
    var m, k := WithProp(n, name, value), FindProp(n.props, name);
    FindPropIs(m.props, name, if k < |n.props| then k else 0);
    if other != name {
      var f := FindProp(n.props, other);
      FindPropIs(m.props, other, if k < |n.props| then f else f + 1);
    }
  }

  lemma AddedFirst(n: Node, a: Property)
    ensures Flatten(n.(props := [a] + n.props)) == Patch(Flatten(n), 1, 1, [Attr(a)])
  {
    hide Attrs, FlattenAll, Patch;
    AttrsFirst(a, n.props);
    AddSecond(Enter(n.name), Attr(a), Attrs(n.props), FlattenAll(n.children));
  }

  lemma AttrsFirst(a: Property, ps: seq<Property>)
    ensures Attrs([a] + ps) == [Attr(a)] + Attrs(ps)
  {}

  lemma AddSecond(h: Event, a: Event, ps: seq<Event>, r: seq<Event>)
    ensures [h] + ([a] + ps) + r + [Leave] == Patch([h] + ps + r + [Leave], 1, 1, [a])
  {
    assert [h] + ps + r + [Leave] == [h] + (ps + r + [Leave]);
    assert [h] + ([a] + ps) + r + [Leave] == [h] + [a] + (ps + r + [Leave]);
  }

  lemma ChangedProp(n: Node, k: nat, a: Property)
    requires k < |n.props|
    ensures 2 + k <= |Flatten(n)|
    ensures Flatten(n.(props := n.props[k := a])) == Patch(Flatten(n), 1 + k, 2 + k, [Attr(a)])
  {
    var m := n.(props := n.props[k := a]);
    var p := Attrs(n.props);
    assert Attrs(m.props) == p[..k] + [Attr(a)] + p[k + 1..];
    var rest := FlattenAll(n.children) + [Leave];
    assert Flatten(n) == [Enter(n.name)] + p + rest;
    assert Flatten(m) == [Enter(n.name)] + (p[..k] + [Attr(a)] + p[k + 1..]) + rest;
    PatchInside([Enter(n.name)], p, rest, k, k + 1, [Attr(a)]);
  }

  lemma DroppedProp(n: Node, k: nat)
    requires k < |n.props|
    ensures 2 + k <= |Flatten(n)|
    ensures Flatten(n.(props := n.props[..k] + n.props[k + 1..])) == Patch(Flatten(n), 1 + k, 2 + k, [])
  {
    var m := n.(props := n.props[..k] + n.props[k + 1..]);
    var p := Attrs(n.props);
    assert Attrs(m.props) == p[..k] + [] + p[k + 1..];
    var rest := FlattenAll(n.children) + [Leave];
    assert Flatten(n) == [Enter(n.name)] + p + rest;
    assert Flatten(m) == [Enter(n.name)] + (p[..k] + [] + p[k + 1..]) + rest;
    PatchInside([Enter(n.name)], p, rest, k, k + 1, []);
  }

  lemma WithValueIsPatch(es: seq<Event>, x: nat, v: seq<Byte>)
    requires x < |es| && es[x].Attr?
    ensures WithValue(es, x, v) == Patch(es, x, x + 1, [Attr(Property(es[x].prop.name, v))])
  {}

  /** The line with a property's value exchanged is the line of the tree with it exchanged. */
  lemma ValueInTree(t: Node, p: Path, k: nat, v: seq<Byte>)
    requires HasPath(t, p) && k < |At(t, p).props|
    ensures var x := Place(t, p) + 1 + k;
      && x < |Flatten(t)| && Flatten(t)[x] == Attr(At(t, p).props[k])
      && Flatten(Replace(t, p, At(t, p).(props := At(t, p).props[k := Property(At(t, p).props[k].name, v)]))) ==
        WithValue(Flatten(t), x, v)
  {
    var n := At(t, p);
    hide *;
    ValueOfNode(t, p, n, k, v);
  }

  lemma ValueOfNode(t: Node, p: Path, n: Node, k: nat, v: seq<Byte>)
    requires HasPath(t, p) && n == At(t, p) && k < |n.props|
    ensures var x := Place(t, p) + 1 + k;
      && x < |Flatten(t)| && Flatten(t)[x] == Attr(n.props[k])
      && Flatten(Replace(t, p, n.(props := n.props[k := Property(n.props[k].name, v)]))) == WithValue(Flatten(t), x, v)
  {
    hide *;
    var x, a := Place(t, p) + 1 + k, Property(n.props[k].name, v);
    Placed(t, p);
    PropAt(Flatten(t), x - 1 - k, n, k);
    PropOfNode(t, p, n, k, a);
    WithValueIsPatch(Flatten(t), x, v);
  }

  lemma PropOfNode(t: Node, p: Path, n: Node, k: nat, a: Property)
    requires HasPath(t, p) && n == At(t, p) && k < |n.props|
    ensures Place(t, p) + 2 + k <= |Flatten(t)|
    ensures Flatten(Replace(t, p, n.(props := n.props[k := a]))) ==
      Patch(Flatten(t), Place(t, p) + 1 + k, Place(t, p) + 2 + k, [Attr(a)])
  {
    hide *;
    ChangedProp(n, k, a);
    PatchTree(t, p, 1 + k, 2 + k, [Attr(a)], n.(props := n.props[k := a]));
  }

  /** A new property in front of the others. */
  lemma FirstInTree(t: Node, p: Path, a: Property)
    requires HasPath(t, p)
    ensures Place(t, p) + 1 <= |Flatten(t)|
    ensures Flatten(Replace(t, p, At(t, p).(props := [a] + At(t, p).props)))
      == Flatten(t)[..Place(t, p) + 1] + [Attr(a)] + Flatten(t)[Place(t, p) + 1..]
  {
    Placed(t, p);
    NodesNotEmpty(At(t, p));
    AddedFirst(At(t, p), a);
    hide Flatten, Before, At, Replace;
    PatchTree(t, p, 1, 1, [Attr(a)], At(t, p).(props := [a] + At(t, p).props));
  }

  // ---------- the calls ----------

  /** How much a property set to a value of the given length adds to the blob: a new one is counted with its name. */
  ghost function PropRoom(n: Node, strs: seq<Byte>, name: seq<Byte>, len: nat): int {
    if FindProp(n.props, name) < |n.props| then Align4(len) - Align4(|ValueOf(n, name)|)
      else NewPropRoom(strs, name, len)
  }

  lemma PropRoomIs(n: Node, strs: seq<Byte>, name: seq<Byte>, len: nat)
    ensures ERR_NOSPACE == 3 && ERR_NOTFOUND == 1
    ensures var k := FindProp(n.props, name);
      k <= |n.props| && PropRoom(n, strs, name, len) == if k < |n.props| then Align4(len) - Align4(|n.props[k].value|)
        else NewPropRoom(strs, name, len)
  {}

  /** A property of the given length, resized or new; only its length is fixed. */
  method SetPropPlaceholder(b: Blob, node: int, name: seq<Byte>, len: nat, ghost t: Node, ghost p: Path)
    returns (err: int, prop: int, ghost v: seq<Byte>)
    requires Holds(b, t) && HasPath(t, p) && node == EvOff(b.ts, Place(t, p)) && 0 !in name && len < 0x8000_0000
    modifies b, b.buf
    ensures b.Valid() && b.Front() == old(b.Front()) && b.totalsize == old(b.totalsize)
    ensures var room := PropRoom(At(t, p), old(b.Strings()), name, len);
      && err == (if old(b.DataSize()) + room > b.totalsize then -ERR_NOSPACE else 0)
      && b.DataSize() == old(b.DataSize()) + if err == 0 then room else 0
    ensures err != 0 ==> Holds(b, t) && b.ts == old(b.ts) && b.Strings() == old(b.Strings())
    ensures err == 0 ==>
      |v| == len && Holds(b, Replace(t, p, WithProp(At(t, p), name, v))) && Kept(old(b.ts), b.ts, Place(t, p))
    ensures err == 0 ==> var m := WithProp(At(t, p), name, v);
      FindProp(m.props, name) < |m.props| && prop == EvOff(b.ts, Place(t, p) + 1 + FindProp(m.props, name))
  {
    hide *;
    HoldsFacts(b, t);
    TagsDiffer();
    Placed(t, p);
    ghost var n, i, ts := At(t, p), Place(t, p), b.ts;
    ghost var k := FindProp(n.props, name);
    PropRoomIs(n, b.Strings(), name, len);
    var value: seq<Byte>;
    prop, value := GetProperty(b, node, name, i, n);
    if prop >= 0 {
      FoundProp(t, p, name);
      err, v := ResizeValue(b, prop, |value|, len, i + 1 + k);
      Known(b);
      if err == 0 {
        ValueInTree(t, p, k, v);
        SetInPlace(n, name, v);
        KeptLess(ts, b.ts, i + 1 + k, i);
      }
    } else {
      v := [];
      if prop != -ERR_NOTFOUND { return prop, 0, v; }
      err, prop, v := AddProperty(b, node, name, len, i);
      if err == 0 {
        FirstInTree(t, p, Property(name, v));
        SetInFront(n, name, v);
      }
    }
    if err == 0 {
      SetThenGet(n, name, v, name);
      NowHolds(b, Replace(t, p, WithProp(n, name, v)));
    } else {
      NowHolds(b, t);
    }
  }

  lemma FoundProp(t: Node, p: Path, name: seq<Byte>)
    requires HasPath(t, p) && FindProp(At(t, p).props, name) < |At(t, p).props|
    ensures var k, x := FindProp(At(t, p).props, name), Place(t, p) + 1 + FindProp(At(t, p).props, name);
      x < |Flatten(t)| && Flatten(t)[x] == Attr(At(t, p).props[k]) && At(t, p).props[k].name == name
  {
    hide *;
    Placed(t, p);
    PropAt(Flatten(t), Place(t, p), At(t, p), FindProp(At(t, p).props, name));
  }

  lemma SetInPlace(n: Node, name: seq<Byte>, v: seq<Byte>)
    requires FindProp(n.props, name) < |n.props|
    ensures var k := FindProp(n.props, name);
      WithProp(n, name, v) == n.(props := n.props[k := Property(n.props[k].name, v)])
        && FindProp(WithProp(n, name, v).props, name) == k
  {
    FindPropIs(WithProp(n, name, v).props, name, FindProp(n.props, name));
  }

  lemma SetInFront(n: Node, name: seq<Byte>, v: seq<Byte>)
    requires FindProp(n.props, name) == |n.props|
    ensures WithProp(n, name, v) == n.(props := [Property(name, v)] + n.props)
      && FindProp(WithProp(n, name, v).props, name) == 0
  {}

  lemma KeptLess(ts: seq<Token>, us: seq<Token>, e: nat, i: nat)
    requires AllWf(ts) && AllWf(us) && Kept(ts, us, e) && i <= e
    ensures Kept(ts, us, i) && EvOff(us, e) == EvOff(ts, e)
  {}

  lemma KeptChain(ts: seq<Token>, us: seq<Token>, ws: seq<Token>, e: nat)
    requires AllWf(ts) && AllWf(us) && AllWf(ws) && Kept(ts, us, e)
    requires forall x: nat :: EvOff(ws, x) == EvOff(us, x)
    ensures Kept(ts, ws, e)
  {}

  /** A value of the right length overwritten after the property was set is the property set to it. */
  lemma SetTwice(t: Node, p: Path, name: seq<Byte>, v: seq<Byte>, w: seq<Byte>)
    requires HasPath(t, p)
    ensures
      var m := WithProp(At(t, p), name, v);
      var k, u := FindProp(m.props, name), Replace(t, p, m);
      && k < |m.props| && m.props[k] == Property(name, v)
      && HasPath(u, p) && At(u, p) == m && Place(u, p) == Place(t, p)
      && Replace(u, p, m.(props := m.props[k := Property(name, w)])) == Replace(t, p, WithProp(At(t, p), name, w))
  {
    hide WithProp, FindProp;
    var n := At(t, p);
    var m := WithProp(n, name, v);
    SetAgain(n, name, v, w);
    ReplaceAt(t, p, m);
    ReplaceTwice(t, p, m, WithProp(n, name, w));
  }

  lemma SetAgain(n: Node, name: seq<Byte>, v: seq<Byte>, w: seq<Byte>)
    ensures
      var m := WithProp(n, name, v);
      var k := FindProp(m.props, name);
      && k < |m.props| && m.props[k] == Property(name, v)
      && m.(props := m.props[k := Property(name, w)]) == WithProp(n, name, w)
  {
    if FindProp(n.props, name) < |n.props| { SetInPlace(n, name, v); } else { SetInFront(n, name, v); }
    hide FindProp;
    var m := WithProp(n, name, v);
    var k := FindProp(m.props, name);
    assert m.props[k := Property(name, w)] == WithProp(n, name, w).props;
  }

  lemma WholeValue(v: seq<Byte>, w: seq<Byte>)
    requires |v| == |w|
    ensures v[..0] + w + v[|w|..] == w
  {}

  /** Fills in the value of a property that was set with the right length. */
  method FillValue(b: Blob, prop: int, name: seq<Byte>, at: nat, data: seq<Byte>, ghost t: Node, ghost p: Path,
          ghost v: seq<Byte>)
    requires HasPath(t, p) && at + |data| <= |v|
    requires var m := WithProp(At(t, p), name, v);
      Holds(b, Replace(t, p, m)) && FindProp(m.props, name) < |m.props|
        && prop == EvOff(b.ts, Place(t, p) + 1 + FindProp(m.props, name))
    modifies b, b.buf
    ensures Holds(b, Replace(t, p, WithProp(At(t, p), name, v[..at] + data + v[at + |data|..])))
    ensures b.Front() == old(b.Front()) && b.totalsize == old(b.totalsize) && b.DataSize() == old(b.DataSize())
    ensures forall e: nat :: EvOff(b.ts, e) == old(EvOff(b.ts, e))
  {
    hide *;
    ghost var m, w := WithProp(At(t, p), name, v), v[..at] + data + v[at + |data|..];
    ghost var u, k := Replace(t, p, m), FindProp(m.props, name);
    HoldsFacts(b, u);
    SetTwice(t, p, name, v, w);
    ValueInTree(u, p, k, w);
    WriteValue(b, prop, at, data, Place(t, p) + 1 + k);
    NowHolds(b, Replace(t, p, WithProp(At(t, p), name, w)));
  }

  /** Sets a property to a value, or reports that there is no room and leaves the tree as it was. */
  method SetProp(b: Blob, node: int, name: seq<Byte>, val: seq<Byte>, ghost t: Node, ghost p: Path) returns (err: int)
    requires Holds(b, t) && HasPath(t, p) && node == EvOff(b.ts, Place(t, p)) && 0 !in name && |val| < 0x8000_0000
    modifies b, b.buf
    ensures b.Valid() && b.Front() == old(b.Front()) && b.totalsize == old(b.totalsize)
    ensures var room := PropRoom(At(t, p), old(b.Strings()), name, |val|);
      && err == (if old(b.DataSize()) + room > b.totalsize then -ERR_NOSPACE else 0)
      && b.DataSize() == old(b.DataSize()) + if err == 0 then room else 0
    ensures err != 0 ==> Holds(b, t) && b.ts == old(b.ts) && b.Strings() == old(b.Strings())
    ensures err == 0 ==> Holds(b, Replace(t, p, WithProp(At(t, p), name, val))) && Kept(old(b.ts), b.ts, Place(t, p))
  {
    hide *;
    HoldsFacts(b, t);
    ghost var ts := b.ts;
    var prop;
    ghost var v;
    err, prop, v := SetPropPlaceholder(b, node, name, |val|, t, p);
    if err != 0 { return; }
    ghost var us := b.ts;
    Known(b);
    WholeValue(v, val);
    if |val| > 0 {
      FillValue(b, prop, name, 0, val, t, p, v);
      HoldsFacts(b, Replace(t, p, WithProp(At(t, p), name, val)));
      KeptChain(ts, us, b.ts, Place(t, p));
    }
  }

  /** Appends to a property, or sets it when there is none. */
  method AppendProp(b: Blob, node: int, name: seq<Byte>, val: seq<Byte>, ghost t: Node, ghost p: Path)
    returns (err: int)
    requires Holds(b, t) && HasPath(t, p) && node == EvOff(b.ts, Place(t, p)) && 0 !in name
    requires |OldValue(At(t, p), name)| + |val| < 0x8000_0000
    modifies b, b.buf
    ensures b.Valid() && b.Front() == old(b.Front()) && b.totalsize == old(b.totalsize)
    ensures var room := PropRoom(At(t, p), old(b.Strings()), name, |OldValue(At(t, p), name)| + |val|);
      && err == (if old(b.DataSize()) + room > b.totalsize then -ERR_NOSPACE else 0)
      && b.DataSize() == old(b.DataSize()) + if err == 0 then room else 0
    ensures err != 0 ==> Holds(b, t) && b.ts == old(b.ts) && b.Strings() == old(b.Strings())
    ensures err == 0 ==>
      Holds(b, Replace(t, p, WithProp(At(t, p), name, OldValue(At(t, p), name) + val)))
      && Kept(old(b.ts), b.ts, Place(t, p))
  {
    hide *;
    HoldsFacts(b, t);
    TagsDiffer();
    Placed(t, p);
    ghost var n, i, ts := At(t, p), Place(t, p), b.ts;
    ghost var k := FindProp(n.props, name);
    var value: seq<Byte>;
    var prop;
    ghost var v;
    prop, value := GetProperty(b, node, name, i, n);
    OldValueIs(n, name);
    PropRoomIs(n, b.Strings(), name, |OldValue(n, name)| + |val|);
    if prop >= 0 {
      FoundProp(t, p, name);
      var newlen := |val| + |value|;
      err, v := ResizeValue(b, prop, |value|, newlen, i + 1 + k);
      Known(b);
      if err != 0 {
        NowHolds(b, t);
        return;
      }
      ValueInTree(t, p, k, v);
      SetInPlace(n, name, v);
      KeptLess(ts, b.ts, i + 1 + k, i);
      SetThenGet(n, name, v, name);
      NowHolds(b, Replace(t, p, WithProp(n, name, v)));
      ghost var us := b.ts;
      AppendedValue(v, value, val);
      FillValue(b, prop, name, |value|, val, t, p, v);
      HoldsFacts(b, Replace(t, p, WithProp(n, name, value + val)));
      KeptChain(ts, us, b.ts, i);
    } else {
      if prop != -ERR_NOTFOUND { return prop; }
      err, prop, v := AddProperty(b, node, name, |val|, i);
      Known(b);
      if err != 0 {
        NowHolds(b, t);
        return;
      }
      FirstInTree(t, p, Property(name, v));
      SetInFront(n, name, v);
      SetThenGet(n, name, v, name);
      NowHolds(b, Replace(t, p, WithProp(n, name, v)));
      ghost var us := b.ts;
      WholeValue(v, val);
      FillValue(b, prop, name, 0, val, t, p, v);
      HoldsFacts(b, Replace(t, p, WithProp(n, name, val)));
      KeptChain(ts, us, b.ts, i);
    }
  }

  ghost function OldValue(n: Node, name: seq<Byte>): seq<Byte> {
    if FindProp(n.props, name) < |n.props| then ValueOf(n, name) else []
  }

  lemma OldValueIs(n: Node, name: seq<Byte>)
    ensures var k := FindProp(n.props, name);
      k <= |n.props| && OldValue(n, name) == if k < |n.props| then n.props[k].value else []
    ensures forall w: seq<Byte> :: [] + w == w
  {}

  lemma AppendedValue(v: seq<Byte>, old_: seq<Byte>, val: seq<Byte>)
    requires |v| == |val| + |old_| && v[..Least(|old_|, |val| + |old_|)] == old_[..Least(|old_|, |val| + |old_|)]
    ensures v[..|old_|] + val + v[|old_| + |val|..] == old_ + val
  {}

  // ---------- deleting ----------

  /** A stretch of tokens taken out. */
  lemma Removed(ts: seq<Token>, tail: seq<Byte>, strs: seq<Byte>, s: seq<Byte>, u: seq<Byte>, x: nat, y: nat, n: nat)
    requires AllWf(ts) && NamesOk(ts, strs) && x <= y < |Events(ts, strs)| && s == Block(ts, tail)
      && Tok(ts, x) <= Tok(ts, y) < |ts|
    requires Off(ts, Tok(ts, x)) + n == Off(ts, Tok(ts, y) + 1) && Spliced(s, u, Off(ts, Tok(ts, x)), n, 0)
    ensures var us := Edited(ts, Tok(ts, x), Tok(ts, y) + 1, []);
      && AllWf(us) && NamesOk(us, strs) && u == Block(us, tail)
      && Events(us, strs) == Patch(Events(ts, strs), x, y + 1, [])
      && (x > 0 ==> Kept(ts, us, x - 1))
  {
    hide *;
    var ja, jb := Tok(ts, x), Tok(ts, y) + 1;
    var us := Edited(ts, ja, jb, []);
    OffOrder(ts, ja, jb, s, tail);
    AroundSpliced(s, u, Off(ts, ja), n, 0, Off(ts, ja), Off(ts, jb), 0);
    AroundFacts(s, u, Off(ts, ja), Off(ts, jb), 0);
    NothingEncoded(strs);
    Rebuilt(s, u, ts, tail, ja, jb, []);
    EditedEvents(ts, ja, jb, [], strs);
    EventsAround(ts, strs, x);
    EventsAround(ts, strs, y);
    PatchIs(Events(ts, strs), x, y + 1);
    if x > 0 {
      BeforeEvent(ts, strs, x);
      StartSame(ts, ja, jb);
      KeptBefore(ts, us, x - 1, ja);
    }
  }

  lemma NothingEncoded(strs: seq<Byte>)
    ensures AllWf([]) && Encode([]) == [] && NamesOk([], strs) && Events([], strs) == []
  {}

  lemma PatchIs(es: seq<Event>, x: nat, y: nat)
    requires x <= y <= |es|
    ensures Patch(es, x, y, []) == es[..x] + [] + es[y..]
  {}

  lemma StartSame(ts: seq<Token>, ja: nat, jb: nat)
    requires ja <= jb <= |ts|
    ensures ja <= |Edited(ts, ja, jb, [])| && Edited(ts, ja, jb, [])[..ja] == ts[..ja]
  {}

  /** The node without its first property of that name. */
  ghost function WithoutProp(n: Node, name: seq<Byte>): Node {
    var k := FindProp(n.props, name);
    if k < |n.props| then n.(props := n.props[..k] + n.props[k + 1..]) else n
  }

  lemma ValueOfIs(n: Node, name: seq<Byte>)
    requires FindProp(n.props, name) < |n.props|
    ensures ValueOf(n, name) == n.props[FindProp(n.props, name)].value
  {}

  method DelProp(b: Blob, node: int, name: seq<Byte>, ghost t: Node, ghost p: Path) returns (err: int)
    requires Holds(b, t) && HasPath(t, p) && node == EvOff(b.ts, Place(t, p))
    modifies b, b.buf
    ensures b.Valid() && b.Front() == old(b.Front()) && b.Strings() == old(b.Strings())
      && b.totalsize == old(b.totalsize)
    ensures err == if FindProp(At(t, p).props, name) < |At(t, p).props| then 0 else -ERR_NOTFOUND
    ensures err == 0 ==> b.DataSize() == old(b.DataSize()) - (12 + Align4(|ValueOf(At(t, p), name)|))
    ensures Holds(b, Replace(t, p, WithoutProp(At(t, p), name))) && Kept(old(b.ts), b.ts, Place(t, p))
  {
    hide *;
    HoldsFacts(b, t);
    Known(b);
    TagsDiffer();
    Placed(t, p);
    ghost var n, i, ts, tail, strs, s := At(t, p), Place(t, p), b.ts, b.tail, b.Strings(), b.Struct();
    ghost var k := FindProp(n.props, name);
    var prop, value := GetProperty(b, node, name, i, n);
    WithoutIs(t, p, name);
    if prop < 0 {
      KeptAll(ts, i);
      return prop;
    }
    FoundProp(t, p, name);
    ValueOfIs(n, name);
    ghost var x := i + 1 + k;
    PropToken(ts, strs, x);
    PropHere(ts, tail, Tok(ts, x));
    var proplen := 12 + Align4(|value|);
    DataFits(b);
    err := b.SpliceStruct(prop, proplen, 0);
    Removed(ts, tail, strs, s, b.Struct(), x, x, proplen);
    b.ts := Edited(ts, Tok(ts, x), Tok(ts, x) + 1, []);
    NowValid(b);
    KeptLess(ts, b.ts, x - 1, i);
    NowHolds(b, Replace(t, p, WithoutProp(n, name)));
  }

  lemma KeptAll(ts: seq<Token>, i: nat)
    requires AllWf(ts)
    ensures Kept(ts, ts, i)
  {}

  lemma DataFits(b: Blob)
    requires b.Layout()
    ensures b.DataSize() <= b.totalsize
  {}

  lemma WithoutIs(t: Node, p: Path, name: seq<Byte>)
    requires HasPath(t, p)
    ensures var k, n, i := FindProp(At(t, p).props, name), At(t, p), Place(t, p);
      && (k == |n.props| ==> Replace(t, p, WithoutProp(n, name)) == t)
      && (k < |n.props| ==>
        i + 2 + k <= |Flatten(t)|
        && Flatten(Replace(t, p, WithoutProp(n, name))) == Patch(Flatten(t), i + 1 + k, i + 2 + k, []))
  {
    var k, n := FindProp(At(t, p).props, name), At(t, p);
    if k == |n.props| {
      ReplaceSame(t, p);
    } else {
      var m := WithoutProp(n, name);
      assert m == n.(props := n.props[..k] + n.props[k + 1..]);
      hide *;
      DroppedProp(n, k);
      PatchTree(t, p, 1 + k, 2 + k, [], m);
    }
  }

  lemma {:induction false} ReplaceSame(t: Node, p: Path)
    requires HasPath(t, p)
    ensures Replace(t, p, At(t, p)) == t
    decreases p
  {
    if p != [] { ReplaceSame(t.children[p[0]], p[1..]); }
  }
}
