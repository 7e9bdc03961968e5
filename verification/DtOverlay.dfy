/** Applying an overlay: one tree merged into another, and phandles kept apart. */
module DtOverlay {
  import opened DtFormat
  import opened DtTree
  import opened DtEvents
  import opened DtBlob
  import opened DtRead
  import opened DtEdit
  import opened DtProperties
  import opened DtNodes

  // ---------- the union of two trees ----------

  /** The node with all properties set, one after the other. */
  ghost function SetAll(n: Node, ps: seq<Property>): Node
    decreases ps
  {
    if ps == [] then n else SetAll(WithProp(n, ps[0].name, ps[0].value), ps[1..])
  }

  /** Overlay properties override; matching children are merged, the others added in front. */
  ghost function Merge(n: Node, o: Node): Node
    decreases o, 1
  {
    MergeChildren(SetAll(n, o.props), o.children)
  }

  ghost function MergeChildren(n: Node, os: seq<Node>): Node
    decreases os, 0
  {
    if os == [] then n else MergeChildren(MergeChild(n, os[0]), os[1..])
  }

  ghost function MergeChild(n: Node, o: Node): Node
    decreases o, 2
  {
    var c := FindChild(n.children, o.name);
    if c < |n.children| then n.(children := n.children[c := Merge(n.children[c], o)])
    else n.(children := [Merge(Node(o.name, [], []), o)] + n.children)
  }

  lemma {:induction false} SetAllSnoc(n: Node, ps: seq<Property>, k: nat)
    requires k < |ps|
    ensures SetAll(n, ps[..k + 1]) == WithProp(SetAll(n, ps[..k]), ps[k].name, ps[k].value)
    decreases k
  {
    if k == 0 {
      assert ps[..1] == [ps[0]] && ps[..0] == [] && [ps[0]][1..] == [];
    } else {
      var m := WithProp(n, ps[0].name, ps[0].value);
      SetAllSnoc(m, ps[1..], k - 1);
      assert ps[..k + 1][1..] == ps[1..][..k] && ps[..k][1..] == ps[1..][..k - 1];
    }
  }

  lemma {:induction false} MergeSnoc(n: Node, os: seq<Node>, k: nat)
    requires k < |os|
    ensures MergeChildren(n, os[..k + 1]) == MergeChild(MergeChildren(n, os[..k]), os[k])
    decreases k
  {
    if k == 0 {
      assert os[..1] == [os[0]] && os[..0] == [] && [os[0]][1..] == [];
    } else {
      MergeSnoc(MergeChild(n, os[0]), os[1..], k - 1);
      assert os[..k + 1][1..] == os[1..][..k] && os[..k][1..] == os[1..][..k - 1];
    }
  }

  /** The last value an overlay states for a name. */
  ghost function LastValue(ps: seq<Property>, name: seq<Byte>): (bool, seq<Byte>) {
    if ps == [] then (false, [])
    else
      var (found, v) := LastValue(ps[1..], name);
      if found then (true, v) else if ps[0].name == name then (true, ps[0].value) else (false, [])
  }

  /** Names stated by the overlay have its value afterwards, all others keep theirs. */
  lemma {:induction false} SetAllValue(n: Node, ps: seq<Property>, name: seq<Byte>)
    ensures var (found, v) := LastValue(ps, name);
      var m := SetAll(n, ps);
      && (found ==> FindProp(m.props, name) < |m.props| && ValueOf(m, name) == v)
      && (!found ==> (FindProp(m.props, name) < |m.props| <==> FindProp(n.props, name) < |n.props|))
      && (!found && FindProp(n.props, name) < |n.props| ==> ValueOf(m, name) == ValueOf(n, name))
    decreases ps
  {
    if ps != [] {
      var n1 := WithProp(n, ps[0].name, ps[0].value);
      SetAllValue(n1, ps[1..], name);
      SetThenGet(n, ps[0].name, ps[0].value, name);
    }
  }

  /** Merging touches children only by what their names say: the merged node's own properties are those of SetAll. */
  lemma {:induction false} MergeKeepsProps(n: Node, os: seq<Node>)
    ensures MergeChildren(n, os).props == n.props && MergeChildren(n, os).name == n.name
    decreases os
  {
    if os != [] { MergeKeepsProps(MergeChild(n, os[0]), os[1..]); }
  }

  // ---------- a merge that stopped ----------

  /** Some of the properties set, but not all. */
  ghost predicate PartProps(n: Node, ps: seq<Property>, m: Node) {
    exists k: nat :: k < |ps| && m == SetAll(n, ps[..k])
  }

  /** What a merge can leave that stopped on the way: some properties, or all of them and some children. */
  ghost predicate PartMerged(n: Node, o: Node, m: Node)
    decreases o, 1, 1
  {
    PartProps(n, o.props, m) || exists k: nat :: k < |o.children| && PartAt(n, o, k, m)
  }

  /** All properties and the first k children merged; it stopped in the next child. */
  ghost predicate PartAt(n: Node, o: Node, k: nat, m: Node)
    requires k < |o.children|
    decreases o, 1, 0
  {
    PartChild(MergeChildren(SetAll(n, o.props), o.children[..k]), o.children[k], m)
  }

  /** A matching child merged in part; or nothing done yet, or a new child added and merged in part. */
  ghost predicate PartChild(n: Node, o: Node, m: Node)
    decreases o, 2, 0
  {
    var c := FindChild(n.children, o.name);
    if c < |n.children| then exists w :: PartMerged(n.children[c], o, w) && m == n.(children := n.children[c := w])
    else m == n || exists w :: PartMerged(Node(o.name, [], []), o, w) && m == n.(children := [w] + n.children)
  }

  lemma StoppedInProps(n: Node, o: Node, m: Node)
    requires PartProps(n, o.props, m)
    ensures PartMerged(n, o, m)
  {}

  lemma StoppedInChild(n: Node, o: Node, k: nat, m: Node)
    requires k < |o.children| && PartChild(MergeChildren(SetAll(n, o.props), o.children[..k]), o.children[k], m)
    ensures PartMerged(n, o, m)
  {
    assert PartAt(n, o, k, m);
    hide PartChild;
  }

  lemma StoppedAt(n: Node, ps: seq<Property>, k: nat)
    requires k < |ps|
    ensures PartProps(n, ps, SetAll(n, ps[..k]))
  {}

  /** A child's merge, finished or not, as the parent sees it. */
  lemma ChildOutcome(m: Node, o: Node, w: Node)
    ensures var c := FindChild(m.children, o.name);
      if c < |m.children| then
        var r := m.(children := m.children[c := w]);
        (w == Merge(m.children[c], o) ==> r == MergeChild(m, o))
          && (PartMerged(m.children[c], o, w) ==> PartChild(m, o, r))
      else
        var r, e := m.(children := [w] + m.children), Node(o.name, [], []);
        && PartChild(m, o, m) && (w == Merge(e, o) ==> r == MergeChild(m, o))
        && (PartMerged(e, o, w) ==> PartChild(m, o, r))
  {
    hide Merge, PartMerged;
  }

  // ---------- room ----------

  /** The most that setting a property can take. */
  ghost function PropNeed(a: Property): nat {
    |a.name| + 1 + (12 + Align4(|a.value|))
  }

  ghost function PropsNeed(ps: seq<Property>): nat {
    if ps == [] then 0 else PropNeed(ps[0]) + PropsNeed(ps[1..])
  }

  /** The most that merging an overlay's node can take: as if nothing in it matched. */
  ghost function Need(o: Node): nat
    decreases o, 1
  {
    PropsNeed(o.props) + NodesNeed(o.children)
  }

  ghost function NodesNeed(os: seq<Node>): nat
    decreases os, 0
  {
    if os == [] then 0 else NodeRoom(os[0].name) + Need(os[0]) + NodesNeed(os[1..])
  }

  lemma NeedIs(o: Node)
    ensures Need(o) == PropsNeed(o.props) + NodesNeed(o.children)
    ensures PropsNeed(o.props[..0]) == 0 && NodesNeed(o.children[..0]) == 0
  {}

  lemma {:induction false} PropsNeedUpTo(ps: seq<Property>, k: nat)
    requires k < |ps|
    ensures PropsNeed(ps[..k + 1]) == PropsNeed(ps[..k]) + PropNeed(ps[k]) <= PropsNeed(ps)
  {
    if k > 0 { PropsNeedUpTo(ps[1..], k - 1); }
    assert ps[..k + 1][1..] == ps[1..][..k];
    if k > 0 { assert ps[..k][1..] == ps[1..][..k - 1]; }
  }

  lemma {:induction false} NodesNeedUpTo(os: seq<Node>, k: nat)
    requires k < |os|
    ensures NodesNeed(os[..k + 1]) == NodesNeed(os[..k]) + NodeRoom(os[k].name) + Need(os[k]) <= NodesNeed(os)
  {
    if k > 0 { NodesNeedUpTo(os[1..], k - 1); }
    assert os[..k + 1][1..] == os[1..][..k];
    if k > 0 { assert os[..k][1..] == os[1..][..k - 1]; }
  }

  lemma RoomIsEnough(n: Node, strs: seq<Byte>, a: Property)
    ensures PropRoom(n, strs, a.name, |a.value|) <= PropNeed(a)
  {}

  /** Names have no zero byte and values fit a signed length. */
  lemma CleanEvent(ts: seq<Token>, strs: seq<Byte>, x: nat)
    requires AllWf(ts) && NamesOk(ts, strs) && x < |Events(ts, strs)|
    ensures Events(ts, strs)[x].Enter? ==> 0 !in Events(ts, strs)[x].name
    ensures Events(ts, strs)[x].Attr? ==>
      0 !in Events(ts, strs)[x].prop.name && |Events(ts, strs)[x].prop.value| < 0x8000_0000
  {
    CursorBehind(ts, strs, x);
    var j := Tok(ts, x);
    assert ts[j] in ts && Wf(ts[j]);
  }

  lemma ChildPlace(t: Node, p: Path, c: nat)
    requires HasPath(t, p) && c < |At(t, p).children|
    ensures HasPath(t, p + [c]) && At(t, p + [c]) == At(t, p).children[c]
    ensures Place(t, p + [c]) == Place(t, p) + ChildPos(At(t, p), c)
  {
    ReplaceChild(t, p, c, At(t, p).children[c]);
  }

  /** Replacing a child of a replaced node. */
  lemma ReplaceBelow(t: Node, p: Path, m: Node, c: nat, n: Node)
    requires HasPath(t, p) && c < |m.children|
    ensures var u := Replace(t, p, m);
      && HasPath(u, p) && At(u, p) == m && Place(u, p) == Place(t, p)
      && HasPath(u, p + [c]) && At(u, p + [c]) == m.children[c] && Place(u, p + [c]) == Place(t, p) + ChildPos(m, c)
      && Replace(u, p + [c], n) == Replace(t, p, m.(children := m.children[c := n]))
  {
    var u := Replace(t, p, m);
    ReplaceAt(t, p, m);
    ReplaceChild(u, p, c, n);
    ChildPlace(u, p, c);
    ReplaceTwice(t, p, m, m.(children := m.children[c := n]));
  }

  /** A property of the node, as the line states it. */
  lemma PropInTree(t: Node, p: Path, k: nat)
    requires HasPath(t, p) && k <= |At(t, p).props|
    ensures var x, n := Place(t, p) + 1 + k, At(t, p);
      x < |Flatten(t)| && (if k < |n.props| then Flatten(t)[x] == Attr(n.props[k]) else !Flatten(t)[x].Attr?)
  {
    hide *;
    Placed(t, p);
    PropAt(Flatten(t), Place(t, p), At(t, p), k);
  }

  lemma FirstChildPos(n: Node)
    ensures ChildPos(n, 0) == 1 + |n.props|
  {
    assert n.children[..0] == [];
  }

  /** One property of the overlay's node. */
  method ApplyProp(fdt: Blob, target: int, fdto: Blob, property: int, ghost t: Node, ghost p: Path, ghost m: Node,
          ghost u: Node, ghost q: Path, ghost k: nat)
    returns (ret: int)
    requires HasPath(t, p) && HasPath(u, q) && k < |At(u, q).props| && fdt != fdto && fdt.buf != fdto.buf
    requires Holds(fdt, Replace(t, p, m)) && Holds(fdto, u)
    requires target == EvOff(fdt.ts, Place(t, p)) && property == EvOff(fdto.ts, Place(u, q) + 1 + k)
    modifies fdt, fdt.buf
    ensures fdt.Valid() && fdt.Front() == old(fdt.Front()) && fdt.totalsize == old(fdt.totalsize)
    ensures ret == 0 || ret == -ERR_NOSPACE
    ensures old(fdt.DataSize()) + PropNeed(At(u, q).props[k]) <= fdt.totalsize ==> ret == 0
    ensures fdt.DataSize() <= old(fdt.DataSize()) + PropNeed(At(u, q).props[k])
    ensures var a := At(u, q).props[k];
      Holds(fdt, Replace(t, p, if ret == 0 then WithProp(m, a.name, a.value) else m))
    ensures ret == 0 ==> Kept(old(fdt.ts), fdt.ts, Place(t, p))
  {
    hide *;
    HoldsFacts(fdt, Replace(t, p, m));
    HoldsFacts(fdto, u);
    Known(fdto);
    TagsDiffer();
    ghost var a, i := At(u, q).props[k], Place(u, q);
    PropInTree(u, q, k);
    CleanEvent(fdto.ts, fdto.Strings(), i + 1 + k);
    var nameoff, value := ReadProp(fdto, property, i + 1 + k);
    HeldName(fdto, nameoff);
    var ok, name := GetString(fdto, nameoff);
    ReplaceAtPlace(t, p, m);
    ReplaceTwice(t, p, m, WithProp(m, a.name, a.value));
    RoomIsEnough(m, fdt.Strings(), a);
    ret := SetProp(fdt, target, name, value, Replace(t, p, m), p);
  }

  /** Sets every property of the overlay's node in the target, as far as there is room. */
  method ApplyProps(fdt: Blob, target: int, fdto: Blob, node: int, ghost t: Node, ghost p: Path, ghost u: Node,
          ghost q: Path)
    returns (ret: int, ghost m: Node)
    requires Holds(fdt, t) && Holds(fdto, u) && HasPath(t, p) && HasPath(u, q) && fdt != fdto && fdt.buf != fdto.buf
    requires target == EvOff(fdt.ts, Place(t, p)) && node == EvOff(fdto.ts, Place(u, q))
    modifies fdt, fdt.buf
    ensures fdt.Valid() && fdt.Front() == old(fdt.Front()) && (ret == 0 || ret == -ERR_NOSPACE)
    ensures fdt.totalsize == old(fdt.totalsize)
    ensures old(fdt.DataSize()) + PropsNeed(At(u, q).props) <= fdt.totalsize ==> ret == 0
    ensures ret == 0 ==> fdt.DataSize() <= old(fdt.DataSize()) + PropsNeed(At(u, q).props)
    ensures Holds(fdt, Replace(t, p, m))
    ensures if ret == 0 then m == SetAll(At(t, p), At(u, q).props) else PartProps(At(t, p), At(u, q).props, m)
    ensures ret == 0 ==> Kept(old(fdt.ts), fdt.ts, Place(t, p))
  {
    hide *;
    HoldsFacts(fdt, t);
    HoldsFacts(fdto, u);
    Known(fdto);
    Known(fdt);
    TagsDiffer();
    Placed(u, q);
    PropInTree(u, q, 0);
    ghost var n, ps, i, ts := At(t, p), At(u, q).props, Place(u, q), fdt.ts;
    ghost var front, d, total := fdt.Front(), fdt.DataSize(), fdt.totalsize;
    NeedIs(At(u, q));
    SetNothing(t, p, ps);
    KeptAll(ts, Place(t, p));
    ghost var k := 0;
    m := SetAll(n, ps[..k]);
    var property := FirstPropertyOffset(fdto, node, i);
    while property >= 0
      invariant k <= |ps| && m == SetAll(n, ps[..k]) && property == if k < |ps| then EvOff(fdto.ts, i + 1 + k)
        else -ERR_NOTFOUND
      invariant Holds(fdt, Replace(t, p, SetAll(n, ps[..k]))) && fdt.Valid() && fdt.Layout() && fdt.Front() == front
      invariant AllWf(fdt.ts) && Kept(ts, fdt.ts, Place(t, p))
      invariant fdt.totalsize == total && fdt.DataSize() <= d + PropsNeed(ps[..k])
      decreases |ps| - k
    {
      StoppedAt(n, ps, k);
      SetAllSnoc(n, ps, k);
      PropsNeedUpTo(ps, k);
      ghost var before := fdt.ts;
      KeptPlace(ts, fdt.ts, Place(t, p));
      ret := ApplyProp(fdt, target, fdto, property, t, p, m, u, q, k);
      Known(fdt);
      if ret != 0 { return; }
      KeptTwice(ts, before, fdt.ts, Place(t, p));
      PropInTree(u, q, k);
      PropInTree(u, q, k + 1);
      property := NextPropertyOffset(fdto, property, i + 1 + k);
      k := k + 1;
      m := SetAll(n, ps[..k]);
    }
    assert ps[..k] == ps;
    ret := 0;
  }

  lemma SetNothing(t: Node, p: Path, ps: seq<Property>)
    requires HasPath(t, p)
    ensures Replace(t, p, SetAll(At(t, p), ps[..0])) == t
  {
    assert ps[..0] == [];
    ReplaceSame(t, p);
  }

  lemma KeptPlace(ts: seq<Token>, us: seq<Token>, e: nat)
    requires AllWf(ts) && AllWf(us) && Kept(ts, us, e)
    ensures EvOff(us, e) == EvOff(ts, e)
  {}

  lemma KeptTwice(ts: seq<Token>, us: seq<Token>, ws: seq<Token>, e: nat)
    requires AllWf(ts) && AllWf(us) && AllWf(ws) && Kept(ts, us, e) && Kept(us, ws, e)
    ensures Kept(ts, ws, e)
  {}

  /** A matching child is merged in place. */
  lemma MergeFound(t: Node, p: Path, m: Node, o: Node)
    requires HasPath(t, p) && FindChild(m.children, o.name) < |m.children|
    ensures var c, u := FindChild(m.children, o.name), Replace(t, p, m);
      && HasPath(u, p) && At(u, p) == m && Place(u, p) == Place(t, p)
      && HasPath(u, p + [c]) && At(u, p + [c]) == m.children[c] && Place(u, p + [c]) == Place(t, p) + ChildPos(m, c)
      && forall w :: Replace(u, p + [c], w) == Replace(t, p, m.(children := m.children[c := w]))
  {
    hide *;
    var c := FindChild(m.children, o.name);
    ReplaceBelow(t, p, m, c, m.children[c]);
    forall w
      ensures Replace(Replace(t, p, m), p + [c], w) == Replace(t, p, m.(children := m.children[c := w]))
    {
      ReplaceBelow(t, p, m, c, w);
    }
  }

  /** A child without match is added empty, then merged. */
  lemma MergeNew(t: Node, p: Path, m: Node, o: Node)
    requires HasPath(t, p) && FindChild(m.children, o.name) == |m.children|
    ensures var u := Replace(t, p, m);
      && HasPath(u, p) && At(u, p) == m && Place(u, p) == Place(t, p)
      && var v := Replace(u, p, WithChild(m, o.name));
      && HasPath(v, p + [0]) && At(v, p + [0]) == Node(o.name, [], [])
      && Place(v, p + [0]) == Place(t, p) + 1 + |m.props|
      && forall w :: Replace(v, p + [0], w) == Replace(t, p, m.(children := [w] + m.children))
  {
    hide *;
    var m1 := WithChild(m, o.name);
    ReplaceAtPlace(t, p, m);
    ReplaceTwice(t, p, m, m1);
    ChildAdded(m, o.name);
    FirstChildPos(m1);
    ReplaceBelow(t, p, m1, 0, m1.children[0]);
    forall w
      ensures Replace(Replace(t, p, m1), p + [0], w) == Replace(t, p, m.(children := [w] + m.children))
    {
      ReplaceBelow(t, p, m1, 0, w);
    }
  }

  lemma ChildAdded(m: Node, name: seq<Byte>)
    ensures var m1 := WithChild(m, name);
      && m1.props == m.props && |m1.children| > 0 && m1.children[0] == Node(name, [], [])
      && forall w :: m1.(children := m1.children[0 := w]) == m.(children := [w] + m.children)
  {
    forall w
      ensures WithChild(m, name).children[0 := w] == [w] + m.children
    {
    }
  }

  /** One child of the overlay: found or added in the target, then applied. */
  method ApplyChild(fdt: Blob, target: int, fdto: Blob, subnode: int, ghost t: Node, ghost p: Path, ghost m: Node,
          ghost u: Node, ghost q: Path)
    returns (ret: int, ghost r: Node)
    requires HasPath(t, p) && HasPath(u, q) && fdt != fdto && fdt.buf != fdto.buf
    requires Holds(fdt, Replace(t, p, m)) && Holds(fdto, u)
    requires target == EvOff(fdt.ts, Place(t, p)) && subnode == EvOff(fdto.ts, Place(u, q))
    modifies fdt, fdt.buf
    ensures fdt.Valid() && fdt.Front() == old(fdt.Front()) && (ret == 0 || ret == -ERR_NOSPACE)
    ensures fdt.totalsize == old(fdt.totalsize)
    ensures old(fdt.DataSize()) + NodeRoom(At(u, q).name) + Need(At(u, q)) <= fdt.totalsize ==> ret == 0
    ensures ret == 0 ==> fdt.DataSize() <= old(fdt.DataSize()) + NodeRoom(At(u, q).name) + Need(At(u, q))
    ensures Holds(fdt, Replace(t, p, r))
      && (if ret == 0 then r == MergeChild(m, At(u, q)) else PartChild(m, At(u, q), r))
    ensures ret == 0 ==> Kept(old(fdt.ts), fdt.ts, Place(t, p))
    decreases At(u, q), 2
  {
    hide *;
    ghost var v, o := Replace(t, p, m), At(u, q);
    ghost var c := FindChild(m.children, o.name);
    HoldsFacts(fdt, v);
    Known(fdt);
    ghost var ts := fdt.ts;
    HoldsFacts(fdto, u);
    Known(fdto);
    TagsDiffer();
    Placed(u, q);
    CleanEvent(fdto.ts, fdto.Strings(), Place(u, q));
    ReplaceAtPlace(t, p, m);
    FindChildBound(m.children, o.name);
    var name := GetName(fdto, subnode, Place(u, q));
    ChildOutcome(m, o, m);
    r := m;
    var nnode := AddSubnode(fdt, target, name, v, p);
    Known(fdt);
    ghost var w, path;
    if nnode == -ERR_EXISTS {
      MergeFound(t, p, m, o);
      Placed(v, p);
      w, path := v, p + [c];
      HoldsFacts(fdt, v);
      nnode := SubnodeOffset(fdt, target, name, Place(t, p), m);
    } else if nnode >= 0 {
      MergeNew(t, p, m, o);
      w, path := Replace(v, p, WithChild(m, o.name)), p + [0];
      HoldsFacts(fdt, w);
    }
    if nnode < 0 { return nnode, r; }
    ghost var us := fdt.ts;
    ghost var x;
    ret, x := ApplyNode(fdt, nnode, fdto, subnode, w, path, u, q);
    Known(fdt);
    ChildOutcome(m, o, x);
    r := m.(children := if c < |m.children| then m.children[c := x] else [x] + m.children);
    if ret == 0 {
      DeeperPlace(t, p, m, c, o.name, path, w);
      KeptLess(us, fdt.ts, Place(w, path), Place(t, p));
      KeptAll(ts, Place(t, p));
      KeptTwice(ts, us, fdt.ts, Place(t, p));
    }
  }

  lemma ReplaceAtPlace(t: Node, p: Path, m: Node)
    requires HasPath(t, p)
    ensures var v := Replace(t, p, m); HasPath(v, p) && At(v, p) == m && Place(v, p) == Place(t, p)
  {
    ReplaceAt(t, p, m);
  }

  /** Children begin behind their parent. */
  lemma DeeperPlace(t: Node, p: Path, m: Node, c: nat, name: seq<Byte>, path: Path, w: Node)
    requires HasPath(t, p) && HasPath(w, path) && c <= |m.children|
    requires Place(w, path) == Place(t, p) + 1 + |m.props| || Place(w, path) == Place(t, p) + ChildPos(m, c)
    ensures Place(t, p) <= Place(w, path)
  {}

  /** Merges the overlay's node into the target and everything below it; without room it stops on the way. */
  method ApplyNode(fdt: Blob, target: int, fdto: Blob, node: int, ghost t: Node, ghost p: Path, ghost u: Node,
          ghost q: Path)
    returns (ret: int, ghost m: Node)
    requires Holds(fdt, t) && Holds(fdto, u) && HasPath(t, p) && HasPath(u, q) && fdt != fdto && fdt.buf != fdto.buf
    requires target == EvOff(fdt.ts, Place(t, p)) && node == EvOff(fdto.ts, Place(u, q))
    modifies fdt, fdt.buf
    ensures fdt.Valid() && fdt.Front() == old(fdt.Front()) && (ret == 0 || ret == -ERR_NOSPACE)
    ensures fdt.totalsize == old(fdt.totalsize)
    ensures old(fdt.DataSize()) + Need(At(u, q)) <= fdt.totalsize ==> ret == 0
    ensures ret == 0 ==> fdt.DataSize() <= old(fdt.DataSize()) + Need(At(u, q))
    ensures Holds(fdt, Replace(t, p, m))
    ensures if ret == 0 then m == Merge(At(t, p), At(u, q)) else PartMerged(At(t, p), At(u, q), m)
    ensures ret == 0 ==> Kept(old(fdt.ts), fdt.ts, Place(t, p))
    decreases At(u, q), 1
  {
    hide *;
    ghost var n, o, i := At(t, p), At(u, q), Place(u, q);
    ghost var m0, os := SetAll(n, o.props), o.children;
    HoldsFacts(fdt, t);
    Known(fdt);
    ghost var ts, front, total := fdt.ts, fdt.Front(), fdt.totalsize;
    NeedIs(o);
    ghost var d := fdt.DataSize() + PropsNeed(o.props);
    HoldsFacts(fdto, u);
    TagsDiffer();
    Placed(u, q);
    MergeIs(t, p, n, o);
    ret, m := ApplyProps(fdt, target, fdto, node, t, p, u, q);
    Known(fdt);
    if ret != 0 {
      StoppedInProps(n, o, m);
      return;
    }
    ghost var k := 0;
    var subnode := FirstSubnode(fdto, node, i, o);
    while subnode >= 0
      invariant k <= |os| && subnode == if k < |os| then EvOff(fdto.ts, i + ChildPos(o, k)) else -ERR_NOTFOUND
      invariant m == MergeChildren(m0, os[..k]) && Holds(fdt, Replace(t, p, m)) && fdt.Valid() && fdt.Layout()
        && fdt.Front() == front
      invariant AllWf(fdt.ts) && Kept(ts, fdt.ts, Place(t, p))
      invariant fdt.totalsize == total && fdt.DataSize() <= d + NodesNeed(os[..k])
      decreases |os| - k
    {
      ghost var before := fdt.ts;
      ChildPlace(u, q, k);
      ChildSmaller(u, q, k);
      KeptPlace(ts, before, Place(t, p));
      MergeSnoc(m0, os, k);
      NodesNeedUpTo(os, k);
      ret, m := ApplyChild(fdt, target, fdto, subnode, t, p, m, u, q + [k]);
      Known(fdt);
      if ret != 0 {
        StoppedInChild(n, o, k, m);
        return;
      }
      KeptTwice(ts, before, fdt.ts, Place(t, p));
      subnode := NextSubnode(fdto, subnode, i, o, k);
      k := k + 1;
    }
    assert os[..k] == os;
    ret := 0;
  }

  lemma MergeIs(t: Node, p: Path, n: Node, o: Node)
    requires HasPath(t, p)
    ensures Merge(n, o) == MergeChildren(SetAll(n, o.props), o.children)
    ensures MergeChildren(SetAll(n, o.props), o.children[..0]) == SetAll(n, o.props)
  {
    assert o.children[..0] == [];
  }

  lemma ChildSmaller(u: Node, q: Path, k: nat)
    requires HasPath(u, q) && k < |At(u, q).children| && HasPath(u, q + [k]) && At(u, q + [k]) == At(u, q).children[k]
    ensures At(u, q + [k]) < At(u, q)
  {}
}
