/** An overlay renumbered: all its phandles moved and then its references, and what that means for the whole tree. */
module DtRenumber {
  import opened DtFormat
  import opened DtTree
  import opened DtEvents
  import opened DtBlob
  import opened DtRead
  import opened DtProperties
  import opened DtPhandles
  import opened DtReferences

  /** The overlay after both passes: phandles moved everywhere, then the words the moved fixups list. */
  ghost function Renumbered(t: Node, d: U32): Node {
    var v := MoveAll(t, d);
    var c := FindChild(v.children, LocalFixups());
    if c < |v.children| then Fix(v, v.children[c], d) else v
  }

  /** Both passes succeed. */
  ghost predicate Renumberable(t: Node, d: U32) {
    var v := MoveAll(t, d);
    var c := FindChild(v.children, LocalFixups());
    AllMovable(t, d) && (c < |v.children| ==> Fixable(v, v.children[c]))
  }

  // ---------- words of a tree ----------

  /** There is a word at place o of property k of the node at p. */
  ghost predicate HasPlace(n: Node, p: Path, k: nat, o: nat) {
    HasPath(n, p) && k < |At(n, p).props| && o + 4 <= |At(n, p).props[k].value|
  }

  ghost function WordAt(n: Node, p: Path, k: nat, o: nat): U32
    requires HasPlace(n, p, k, o)
  {
    GetU32(At(n, p).props[k].value, o)
  }

  /** How often a fixup property lists the word at o of property k: the first of its own name is the one it means. */
  ghost function TimesOne(ps: seq<Property>, a: Property, k: nat, o: nat): nat {
    if FindProp(ps, a.name) == k && |a.value| % 4 == 0 then CountPlaces(a.value, |a.value| / 4, o) else 0
  }

  ghost function TimesOwn(ps: seq<Property>, fs: seq<Property>, k: nat, o: nat): nat {
    if fs == [] then 0 else TimesOwn(ps, fs[..|fs| - 1], k, o) + TimesOne(ps, fs[|fs| - 1], k, o)
  }

  /** How often the fixups list a word of a node at p. */
  ghost function ListedTimes(n: Node, f: Node, p: Path, k: nat, o: nat): nat
    requires HasPath(n, p)
    decreases |p|, 1, 0
  {
    if p == [] then TimesOwn(n.props, f.props, k, o) else TimesBelow(n.children, f.children, p, k, o)
  }

  ghost function TimesBelow(ns: seq<Node>, fs: seq<Node>, p: Path, k: nat, o: nat): nat
    requires p != [] && p[0] < |ns| && HasPath(ns[p[0]], p[1..])
    decreases |p|, 0, |fs|
  {
    if fs == [] then 0
    else
      TimesBelow(ns, fs[..|fs| - 1], p, k, o)
      + if FindChild(ns, fs[|fs| - 1].name) == p[0] then ListedTimes(ns[p[0]], fs[|fs| - 1], p[1..], k, o) else 0
  }

  /** No place listed for the property overlaps the word without being it. */
  ghost predicate ApartOne(ps: seq<Property>, a: Property, k: nat, o: nat) {
    FindProp(ps, a.name) == k && |a.value| % 4 == 0 ==> EqualOrApart(a.value, |a.value| / 4, o)
  }

  ghost predicate ApartOwn(ps: seq<Property>, fs: seq<Property>, k: nat, o: nat) {
    forall j :: 0 <= j < |fs| ==> ApartOne(ps, fs[j], k, o)
  }

  ghost predicate PlacesApart(n: Node, f: Node, p: Path, k: nat, o: nat)
    requires HasPath(n, p)
    decreases |p|, 1
  {
    if p == [] then ApartOwn(n.props, f.props, k, o) else ApartBelow(n.children, f.children, p, k, o)
  }

  ghost predicate ApartBelow(ns: seq<Node>, fs: seq<Node>, p: Path, k: nat, o: nat)
    requires p != [] && p[0] < |ns| && HasPath(ns[p[0]], p[1..])
    decreases |p|, 0
  {
    forall j :: 0 <= j < |fs| && FindChild(ns, fs[j].name) == p[0] ==> PlacesApart(ns[p[0]], fs[j], p[1..], k, o)
  }

  // ---------- what depends on the shape alone ----------

  lemma {:induction false} ShapePath(n: Node, m: Node, p: Path)
    requires SameShape(n, m)
    ensures HasPath(m, p) <==> HasPath(n, p)
    ensures HasPath(n, p) ==> SameShape(At(n, p), At(m, p))
    decreases |p|
  {
    if p != [] && p[0] < |n.children| { ShapePath(n.children[p[0]], m.children[p[0]], p[1..]); }
  }

  lemma ShapePlace(n: Node, m: Node, p: Path, k: nat, o: nat)
    requires SameShape(n, m)
    ensures HasPlace(m, p, k, o) <==> HasPlace(n, p, k, o)
  {
    ShapePath(n, m, p);
    if HasPath(n, p) { ShapeParts(At(n, p), At(m, p)); }
    hide SameShape;
  }

  lemma ShapeParts(n: Node, m: Node)
    requires SameShape(n, m)
    ensures SameLengths(n.props, m.props) && SameShapes(n.children, m.children)
  {}

  lemma {:induction false} TimesOwnShape(ps: seq<Property>, qs: seq<Property>, fs: seq<Property>, k: nat, o: nat)
    requires SameLengths(ps, qs)
    ensures TimesOwn(qs, fs, k, o) == TimesOwn(ps, fs, k, o) && (ApartOwn(qs, fs, k, o) <==> ApartOwn(ps, fs, k, o))
  {
    forall j | 0 <= j < |fs|
      ensures FindProp(qs, fs[j].name) == FindProp(ps, fs[j].name)
    {
      ShapeProps(ps, qs, fs[j].name);
    }
    if fs != [] { TimesOwnShape(ps, qs, fs[..|fs| - 1], k, o); }
  }

  lemma {:induction false} TimesShape(n: Node, m: Node, f: Node, p: Path, k: nat, o: nat)
    requires SameShape(n, m) && HasPath(n, p) && HasPath(m, p)
    ensures ListedTimes(m, f, p, k, o) == ListedTimes(n, f, p, k, o)
      && (PlacesApart(m, f, p, k, o) <==> PlacesApart(n, f, p, k, o))
    decreases |p|, 1, 0
  {
    ShapeParts(n, m);
    if p == [] {
      TimesOwnShape(n.props, m.props, f.props, k, o);
    } else {
      TimesBelowShape(n.children, m.children, f.children, p, k, o);
    }
  }

  lemma {:induction false} TimesBelowShape(ns: seq<Node>, ms: seq<Node>, fs: seq<Node>, p: Path, k: nat, o: nat)
    requires SameShapes(ns, ms) && p != [] && p[0] < |ns| && HasPath(ns[p[0]], p[1..]) && HasPath(ms[p[0]], p[1..])
    ensures TimesBelow(ms, fs, p, k, o) == TimesBelow(ns, fs, p, k, o)
      && (ApartBelow(ms, fs, p, k, o) <==> ApartBelow(ns, fs, p, k, o))
    decreases |p|, 0, |fs|
  {
    hide ListedTimes, PlacesApart, HasPath, SameShape, FindChild;
    forall j | 0 <= j < |fs|
      ensures FindChild(ms, fs[j].name) == FindChild(ns, fs[j].name)
      ensures PlacesApart(ms[p[0]], fs[j], p[1..], k, o) <==> PlacesApart(ns[p[0]], fs[j], p[1..], k, o)
    {
      ShapeChildren(ns, ms, fs[j].name);
      TimesShape(ns[p[0]], ms[p[0]], fs[j], p[1..], k, o);
    }
    if fs != [] {
      TimesBelowShape(ns, ms, fs[..|fs| - 1], p, k, o);
      TimesShape(ns[p[0]], ms[p[0]], fs[|fs| - 1], p[1..], k, o);
    }
  }

  // ---------- a word under the fixups ----------

  lemma FixPropWord(n: Node, a: Property, d: U32, k: nat, o: nat)
    requires k < |n.props| && o + 4 <= |n.props[k].value| && ApartOne(n.props, a, k, o)
    ensures var m := FixProp(n, a, d);
      && |m.props| == |n.props| && |m.props[k].value| == |n.props[k].value|
      && GetU32(m.props[k].value, o) == Added(GetU32(n.props[k].value, o), TimesOne(n.props, a, k, o), d)
  {
    FixPropShape(n, a, d);
    AddedNone(GetU32(n.props[k].value, o), d);
    if FindProp(n.props, a.name) == k && |a.value| % 4 == 0 {
      WordCounted(n.props[k].value, a.value, |a.value| / 4, d, o);
    }
    hide MoveCells, GetU32, Added, CountPlaces;
  }

  lemma {:induction false} FixOwnWord(n: Node, fs: seq<Property>, d: U32, k: nat, o: nat)
    requires k < |n.props| && o + 4 <= |n.props[k].value| && ApartOwn(n.props, fs, k, o)
    ensures var m := FixOwn(n, fs, d);
      && |m.props| == |n.props| && |m.props[k].value| == |n.props[k].value|
      && GetU32(m.props[k].value, o) == Added(GetU32(n.props[k].value, o), TimesOwn(n.props, fs, k, o), d)
  {
    var x := GetU32(n.props[k].value, o);
    AddedNone(x, d);
    if fs != [] {
      var gs, a := fs[..|fs| - 1], fs[|fs| - 1];
      var m := FixOwn(n, gs, d);
      FixOwnWord(n, gs, d, k, o);
      FixOwnShape(n, gs, d);
      ShapeProps(n.props, m.props, a.name);
      FixPropWord(m, a, d, k, o);
      AddedSum(x, TimesOwn(n.props, gs, k, o), TimesOne(n.props, a, k, o), d);
    }
    hide GetU32, Added, FixProp, EqualOrApart;
  }

  /** A word of the node at p is moved as often as the fixups list it. */
  lemma {:induction false} FixWord(n: Node, f: Node, d: U32, p: Path, k: nat, o: nat)
    requires HasPlace(n, p, k, o) && PlacesApart(n, f, p, k, o)
    ensures HasPlace(Fix(n, f, d), p, k, o)
      && WordAt(Fix(n, f, d), p, k, o) == Added(WordAt(n, p, k, o), ListedTimes(n, f, p, k, o), d)
    decreases f, 1, 0
  {
    var m := FixOwn(n, f.props, d);
    FixOwnShape(n, f.props, d);
    FixChildrenShape(m, f.children, d);
    if p == [] {
      FixOwnWord(n, f.props, d, k, o);
    } else {
      FixBelowWord(m, f.children, d, p, k, o);
    }
    hide GetU32, Added;
  }

  lemma {:induction false} FixBelowWord(n: Node, fs: seq<Node>, d: U32, p: Path, k: nat, o: nat)
    requires p != [] && HasPlace(n, p, k, o) && ApartBelow(n.children, fs, p, k, o)
    ensures var m := FixChildren(n, fs, d);
      HasPlace(m, p, k, o) && WordAt(m, p, k, o) == Added(WordAt(n, p, k, o), TimesBelow(n.children, fs, p, k, o), d)
    decreases fs, 0, |fs|
  {
    hide GetU32, Added, SameShape, Fix, FindChild, ListedTimes, PlacesApart;
    AddedNone(WordAt(n, p, k, o), d);
    if fs != [] {
      var gs, g, c := fs[..|fs| - 1], fs[|fs| - 1], p[0];
      var m := FixChildren(n, gs, d);
      FixBelowWord(n, gs, d, p, k, o);
      FixChildrenShape(n, gs, d);
      ShapeChildren(n.children, m.children, g.name);
      if FindChild(n.children, g.name) == c {
        ShapeParts(n, m);
        ShapePath(n.children[c], m.children[c], p[1..]);
        TimesShape(n.children[c], m.children[c], g, p[1..], k, o);
        FixWord(m.children[c], g, d, p[1..], k, o);
        AddedSum(WordAt(n, p, k, o), TimesBelow(n.children, gs, p, k, o), ListedTimes(n.children[c], g, p[1..], k, o),
          d);
      }
    }
  }

  // ---------- the tree with its phandles moved ----------

  /** The first property with one of the two phandle names. */
  ghost predicate IsPhandle(ps: seq<Property>, k: nat) {
    k < |ps| && (FindProp(ps, PhandleName()) == k || FindProp(ps, LinuxName()) == k)
  }

  /** A move leaves everything but the one value, which has one word before and after. */
  lemma MoveWordKeeps(n: Node, name: seq<Byte>, d: U32)
    ensures var m := MoveWord(n, name, d);
      && m.name == n.name && m.children == n.children && SameLengths(n.props, m.props)
      && (forall k :: 0 <= k < |n.props| && FindProp(n.props, name) != k ==> m.props[k] == n.props[k])
  {
    if HasWord(n, name) && WordOf(n, name) + d < WORD { MovedIs(n, name, d); }
    hide PutU32;
  }

  lemma MoveOwnKeeps(n: Node, d: U32)
    ensures var m := MoveOwn(n, d);
      && m.name == n.name && m.children == n.children && SameLengths(n.props, m.props)
      && (forall k :: 0 <= k < |n.props| && !IsPhandle(n.props, k) ==> m.props[k] == n.props[k])
  {
    hide MoveWord, PhandleName, LinuxName;
    var l := MoveWord(n, PhandleName(), d);
    MoveWordKeeps(n, PhandleName(), d);
    ShapeProps(n.props, l.props, LinuxName());
    MoveWordKeeps(l, LinuxName(), d);
  }

  lemma {:induction false} MovedShape(t: Node, d: U32)
    ensures SameShape(t, MoveAll(t, d))
    decreases t, 1
  {
    MoveOwnKeeps(t, d);
    MovedShapes(t.children, d);
    hide MoveOwn;
  }

  lemma {:induction false} MovedShapes(ts: seq<Node>, d: U32)
    ensures SameShapes(ts, MoveEach(ts, d))
    decreases ts, 0
  {
    forall k | 0 <= k < |ts|
      ensures SameShape(ts[k], MoveEach(ts, d)[k])
    {
      MoveEachAt(ts, d, k);
      MovedShape(ts[k], d);
    }
  }

  /** Every node has its own phandles moved, wherever it lies. */
  lemma {:induction false} MovedAt(t: Node, d: U32, p: Path)
    requires HasPath(t, p)
    ensures HasPath(MoveAll(t, d), p) && At(MoveAll(t, d), p) == MoveAll(At(t, p), d)
    decreases |p|
  {
    if p != [] {
      MoveEachAt(t.children, d, p[0]);
      MovedAt(t.children[p[0]], d, p[1..]);
    }
    hide MoveOwn;
  }

  lemma WordMovedOnce(n: Node, name: seq<Byte>, d: U32, k: nat, o: nat)
    requires Movable(n, name, d) && k < |n.props| && o + 4 <= |n.props[k].value|
    ensures var m := MoveWord(n, name, d);
      && |m.props| == |n.props| && |m.props[k].value| == |n.props[k].value|
      && GetU32(m.props[k].value, o) ==
        Added(GetU32(n.props[k].value, o), if FindProp(n.props, name) == k then 1 else 0, d)
  {
    hide Added, GetU32, PutU32;
    var x := GetU32(n.props[k].value, o);
    AddedNone(x, d);
    MoveWordKeeps(n, name, d);
    if FindProp(n.props, name) == k {
      var v := PutU32(x + d);
      MovedIs(n, name, d);
      assert v[0..4] == v;
      GetPut(x + d, v, 0);
      PlainSum(x, d);
    }
  }

  lemma PlainSum(x: U32, y: U32)
    requires x + y < NO_PHANDLE
    ensures AddU32(x, y) == x + y
  {}

  /** Of a movable node's words exactly those of its phandles move, each once. */
  lemma WordMoved(n: Node, d: U32, k: nat, o: nat)
    requires OwnMovable(n, d) && k < |n.props| && o + 4 <= |n.props[k].value|
    ensures var m := MoveOwn(n, d);
      && |m.props| == |n.props| && |m.props[k].value| == |n.props[k].value|
      && GetU32(m.props[k].value, o) == Added(GetU32(n.props[k].value, o), if IsPhandle(n.props, k) then 1 else 0, d)
  {
    hide MoveWord, PhandleName, LinuxName, GetU32, Added;
    var l, x := MoveWord(n, PhandleName(), d), GetU32(n.props[k].value, o);
    MoveWordKeeps(n, PhandleName(), d);
    ShapeProps(n.props, l.props, LinuxName());
    MovableAfter(n, d);
    WordMovedOnce(n, PhandleName(), d, k, o);
    WordMovedOnce(l, LinuxName(), d, k, o);
    AddedSum(x, 1, 0, d);
    AddedSum(x, 0, 1, d);
    AddedSum(x, 0, 0, d);
    NamesDiffer();
    FoundName(n.props, PhandleName(), k);
    FoundName(n.props, LinuxName(), k);
  }

  lemma FoundName(ps: seq<Property>, name: seq<Byte>, k: nat)
    requires k < |ps|
    ensures FindProp(ps, name) == k ==> ps[k].name == name
  {}

  // ---------- nothing moves over a base without phandles ----------

  lemma StayCell(v: seq<Byte>, at: nat)
    ensures MoveCell(v, at, 0) == v
  {
    if at + 4 <= |v| {
      PutGet(v, at);
      assert AddU32(GetU32(v, at), 0) == GetU32(v, at);
    }
    hide PutU32, GetU32;
  }

  lemma {:induction false} StayCells(v: seq<Byte>, f: seq<Byte>, n: nat)
    requires 4 * n <= |f|
    ensures MoveCells(v, f, n, 0) == v
  {
    if n > 0 {
      StayCells(v, f, n - 1);
      StayCell(v, CellAt(f, n - 1));
    }
  }

  lemma StayWith(n: Node, name: seq<Byte>)
    requires Present(n, name)
    ensures WithProp(n, name, ValueOf(n, name)) == n
  {
    CellsStart(n, name, [], 0);
  }

  lemma {:induction false} StayOwn(n: Node, fs: seq<Property>)
    ensures FixOwn(n, fs, 0) == n
  {
    if fs != [] {
      var a := fs[|fs| - 1];
      StayOwn(n, fs[..|fs| - 1]);
      if Present(n, a.name) && |a.value| % 4 == 0 {
        StayCells(ValueOf(n, a.name), a.value, |a.value| / 4);
        StayWith(n, a.name);
      }
    }
  }

  lemma {:induction false} StayFix(n: Node, f: Node)
    ensures Fix(n, f, 0) == n
    decreases f, 1, 0
  {
    StayOwn(n, f.props);
    StayChildren(n, f.children);
  }

  lemma {:induction false} StayChildren(n: Node, fs: seq<Node>)
    ensures FixChildren(n, fs, 0) == n
    decreases fs, 0, |fs|
  {
    if fs != [] {
      var g := fs[|fs| - 1];
      StayChildren(n, fs[..|fs| - 1]);
      var c := FindChild(n.children, g.name);
      if c < |n.children| {
        StayFix(n.children[c], g);
        assert n.children[c := n.children[c]] == n.children;
      }
    }
  }

  lemma StayWord(n: Node, name: seq<Byte>)
    ensures MoveWord(n, name, 0) == n
  {
    if HasWord(n, name) {
      var v := ValueOf(n, name);
      PutGet(v, 0);
      assert v[0..4] == v;
      StayWith(n, name);
    }
    hide PutU32, GetU32;
  }

  lemma {:induction false} StayAll(t: Node)
    ensures MoveAll(t, 0) == t
    decreases t, 1
  {
    StayWord(t, PhandleName());
    StayWord(t, LinuxName());
    StayEach(t.children);
  }

  lemma {:induction false} StayEach(ts: seq<Node>)
    ensures MoveEach(ts, 0) == ts
    decreases ts, 0
  {
    if ts != [] {
      StayAll(ts[0]);
      StayEach(ts[1..]);
    }
  }

  /** Over a base without phandles the overlay stays as it is. */
  lemma NothingMoves(t: Node)
    ensures Renumbered(t, 0) == t
  {
    StayAll(t);
    var c := FindChild(t.children, LocalFixups());
    if c < |t.children| { StayFix(t, t.children[c]); }
    hide Fix;
  }

  // ---------- fixups that list no phandle ----------

  /** No node of the tree has a property with one of the two phandle names. */
  ghost predicate NoPhandles(f: Node)
    decreases f
  {
    && !Present(f, PhandleName()) && !Present(f, LinuxName())
    && forall k :: 0 <= k < |f.children| ==> NoPhandles(f.children[k])
  }

  lemma {:induction false} Unmoved(f: Node, d: U32)
    requires NoPhandles(f)
    ensures MoveAll(f, d) == f
    decreases f, 1
  {
    UnmovedEach(f.children, d);
    hide PhandleName, LinuxName;
  }

  lemma {:induction false} UnmovedEach(fs: seq<Node>, d: U32)
    requires forall k :: 0 <= k < |fs| ==> NoPhandles(fs[k])
    ensures MoveEach(fs, d) == fs
    decreases fs, 0
  {
    if fs != [] {
      Unmoved(fs[0], d);
      UnmovedEach(fs[1..], d);
    }
    hide NoPhandles;
  }

  /** A list of one place fits a value of one word only when that place is zero. */
  lemma OnlyPlace(w: U32)
    ensures CellsFit(4, PutU32(w)) <==> w == 0
  {
    var v := PutU32(w);
    assert v[0..4] == v;
    hide PutU32, GetU32;
    GetPut(w, v, 0);
    assert CellAt(v, 0) == w;
  }

  /** A fixup property with a phandle name has been moved itself, so the place it lists lies outside the four bytes. */
  lemma OwnUnlisted(n: Node, f: Node, name: seq<Byte>, d: U32)
    requires d > 0 && Movable(n, name, d) && Movable(f, name, d)
    requires HasWord(f, name) ==> PropFixable(n, Property(name, PutU32(WordOf(f, name) + d)))
    ensures !Present(f, name)
  {
    hide PutU32, GetU32, CellsFit;
    if Present(f, name) { OnlyPlace(WordOf(f, name) + d); }
  }

  /** The moved fixup property with a phandle name. */
  lemma MovedFixup(f: Node, name: seq<Byte>, d: U32)
    requires OwnMovable(f, d) && HasWord(f, name) && (name == PhandleName() || name == LinuxName())
    ensures var m, k := MoveOwn(f, d), FindProp(f.props, name);
      k < |m.props| && WordOf(f, name) + d < WORD && m.props[k] == Property(name, PutU32(WordOf(f, name) + d))
  {
    hide PutU32, GetU32, PhandleName, LinuxName, MoveWord;
    NamesDiffer();
    var l := MoveWord(f, PhandleName(), d);
    MovableAfter(f, d);
    MoveWordKeeps(f, PhandleName(), d);
    ShapeProps(f.props, l.props, LinuxName());
    MoveWordKeeps(l, LinuxName(), d);
    MovedWord(f, PhandleName(), d, LinuxName());
    if name == PhandleName() { MovedValue(f, name, d); } else { MovedValue(l, name, d); }
    FoundName(f.props, PhandleName(), FindProp(f.props, name));
    FoundName(f.props, LinuxName(), FindProp(f.props, name));
  }

  lemma MovedValue(n: Node, name: seq<Byte>, d: U32)
    requires HasWord(n, name) && Movable(n, name, d)
    ensures var m, k := MoveWord(n, name, d), FindProp(n.props, name);
      k < |m.props| && WordOf(n, name) + d < WORD && m.props[k] == Property(name, PutU32(WordOf(n, name) + d))
  {
    MovedIs(n, name, d);
    hide PutU32, GetU32;
  }

  lemma OneFree(n: Node, f: Node, name: seq<Byte>, d: U32)
    requires d > 0 && Movable(n, name, d) && OwnMovable(f, d) && (name == PhandleName() || name == LinuxName())
    requires forall k :: 0 <= k < |MoveOwn(f, d).props| ==> PropFixable(n, MoveOwn(f, d).props[k])
    ensures !Present(f, name)
  {
    EitherMovable(f, name, d);
    hide PhandleName, LinuxName, MoveOwn, PropFixable, WordOf, HasWord, Movable, Present;
    if HasWord(f, name) { MovedFixup(f, name, d); }
    OwnUnlisted(n, f, name, d);
  }

  lemma EitherMovable(f: Node, name: seq<Byte>, d: U32)
    requires OwnMovable(f, d) && (name == PhandleName() || name == LinuxName())
    ensures Movable(f, name, d)
  {
    hide Movable, PhandleName, LinuxName;
  }

  lemma OwnFree(n: Node, f: Node, d: U32)
    requires d > 0 && OwnMovable(n, d) && OwnMovable(f, d)
    requires forall k :: 0 <= k < |MoveOwn(f, d).props| ==> PropFixable(n, MoveOwn(f, d).props[k])
    ensures !Present(f, PhandleName()) && !Present(f, LinuxName())
  {
    hide *;
    EitherMovable(n, PhandleName(), d);
    EitherMovable(n, LinuxName(), d);
    OneFree(n, f, PhandleName(), d);
    OneFree(n, f, LinuxName(), d);
  }

  lemma FixableBelow(n: Node, f: Node, d: U32)
    requires Fixable(n, MoveAll(f, d))
    ensures forall k :: 0 <= k < |MoveOwn(f, d).props| ==> PropFixable(n, MoveOwn(f, d).props[k])
    ensures forall k :: 0 <= k < |f.children| ==>
      var c := FindChild(n.children, f.children[k].name);
        c < |n.children| && Fixable(n.children[c], MoveAll(f.children[k], d))
  {
    hide MoveOwn, PropFixable;
    var g := MoveAll(f, d);
    forall k | 0 <= k < |f.children|
      ensures var c := FindChild(n.children, f.children[k].name);
        c < |n.children| && Fixable(n.children[c], MoveAll(f.children[k], d))
    {
      MoveEachAt(f.children, d, k);
      MovedName(f.children[k], d);
      assert ChildFixable(n, g.children[k]);
    }
  }

  lemma MovedName(f: Node, d: U32)
    ensures MoveAll(f, d).name == f.name && MoveAll(f, d).props == MoveOwn(f, d).props
  {
    MoveOwnKeeps(f, d);
    hide MoveOwn;
  }

  /** Where both passes succeed over a base with phandles, the fixups list no phandle. */
  lemma {:induction false} Unlisted(n: Node, f: Node, d: U32)
    requires d > 0 && AllMovable(n, d) && AllMovable(f, d) && Fixable(n, MoveAll(f, d))
    ensures NoPhandles(f)
    decreases f
  {
    hide PhandleName, LinuxName, MoveOwn, AllMovable, Fixable, MoveAll, PropFixable, Present;
    MovableBelow(n, d, 0);
    MovableBelow(f, d, 0);
    FixableBelow(n, f, d);
    OwnFree(n, f, d);
    forall k | 0 <= k < |f.children|
      ensures NoPhandles(f.children[k])
    {
      var c := FindChild(n.children, f.children[k].name);
      MovableBelow(n, d, c);
      MovableBelow(f, d, k);
      Unlisted(n.children[c], f.children[k], d);
    }
  }

  // ---------- the whole overlay ----------

  /** How often the overlay's own fixups list a word. */
  ghost function Listings(t: Node, p: Path, k: nat, o: nat): nat
    requires HasPath(t, p)
  {
    var c := FindChild(t.children, LocalFixups());
    if c < |t.children| then ListedTimes(t, t.children[c], p, k, o) else 0
  }

  /** No place the fixups list overlaps the word without being it. */
  ghost predicate ListedApart(t: Node, p: Path, k: nat, o: nat)
    requires HasPath(t, p)
  {
    var c := FindChild(t.children, LocalFixups());
    c < |t.children| ==> PlacesApart(t, t.children[c], p, k, o)
  }

  /** The fixups come through the first pass as they were. */
  lemma SameFixups(t: Node, d: U32)
    requires Renumberable(t, d)
    ensures var v := MoveAll(t, d);
      var c := FindChild(t.children, LocalFixups());
      && SameShape(t, v) && FindChild(v.children, LocalFixups()) == c && |v.children| == |t.children|
      && (c < |t.children| ==> v.children[c] == t.children[c] && (d > 0 ==> NoPhandles(t.children[c])))
  {
    hide *;
    var v, c := MoveAll(t, d), FindChild(t.children, LocalFixups());
    RenumberIs(t, d);
    MovedShape(t, d);
    ShapeParts(t, v);
    ShapesCount(t.children, v.children);
    ShapeChildren(t.children, v.children, LocalFixups());
    if c < |t.children| {
      MovedChild(t, d, c);
      MovableBelow(t, d, c);
      if d > 0 {
        ShapeFixable(t, v, v.children[c]);
        Unlisted(t, t.children[c], d);
        Unmoved(t.children[c], d);
      } else {
        StayAll(t);
      }
    }
  }

  lemma ShapesCount(ns: seq<Node>, ms: seq<Node>)
    requires SameShapes(ns, ms)
    ensures |ms| == |ns|
  {
    hide SameShape;
  }

  lemma MovedChild(t: Node, d: U32, c: nat)
    requires c < |t.children|
    ensures var v := MoveAll(t, d); |v.children| == |t.children| && v.children[c] == MoveAll(t.children[c], d)
  {
    hide MoveOwn;
    MoveEachAt(t.children, d, c);
  }

  lemma {:induction false} NoneListed(n: Node, f: Node, p: Path, k: nat, o: nat)
    requires NoPhandles(f) && HasPath(n, p) && IsPhandle(At(n, p).props, k)
    ensures ListedTimes(n, f, p, k, o) == 0 && PlacesApart(n, f, p, k, o)
    decreases |p|, 1, 0
  {
    if p == [] {
      NoneOwn(n.props, f, |f.props|, k, o);
      assert f.props[..|f.props|] == f.props;
    } else {
      NoneListedBelow(n.children, f.children, p, k, o);
    }
    hide PhandleName, LinuxName;
  }

  lemma {:induction false} NoneListedBelow(ns: seq<Node>, fs: seq<Node>, p: Path, k: nat, o: nat)
    requires forall j :: 0 <= j < |fs| ==> NoPhandles(fs[j])
    requires p != [] && p[0] < |ns| && HasPath(ns[p[0]], p[1..]) && IsPhandle(At(ns[p[0]], p[1..]).props, k)
    ensures TimesBelow(ns, fs, p, k, o) == 0 && ApartBelow(ns, fs, p, k, o)
    decreases |p|, 0, |fs|
  {
    forall j | 0 <= j < |fs|
      ensures ListedTimes(ns[p[0]], fs[j], p[1..], k, o) == 0 && PlacesApart(ns[p[0]], fs[j], p[1..], k, o)
    {
      NoneListed(ns[p[0]], fs[j], p[1..], k, o);
    }
    if fs != [] { NoneListedBelow(ns, fs[..|fs| - 1], p, k, o); }
    hide NoPhandles, IsPhandle, ListedTimes, PlacesApart;
  }

  lemma {:induction false} NoneOwn(ps: seq<Property>, f: Node, i: nat, k: nat, o: nat)
    requires NoPhandles(f) && IsPhandle(ps, k) && i <= |f.props|
    ensures TimesOwn(ps, f.props[..i], k, o) == 0 && ApartOwn(ps, f.props[..i], k, o)
  {
    hide PhandleName, LinuxName, CountPlaces, EqualOrApart;
    forall j | 0 <= j < i
      ensures FindProp(ps, f.props[j].name) != k
    {
      FoundName(ps, f.props[j].name, k);
      FoundName(ps, PhandleName(), k);
      FoundName(ps, LinuxName(), k);
      NameThere(f.props, j);
    }
    if i > 0 {
      NoneOwn(ps, f, i - 1, k, o);
      assert f.props[..i][..i - 1] == f.props[..i - 1];
    }
  }

  lemma NameThere(ps: seq<Property>, j: nat)
    requires j < |ps|
    ensures FindProp(ps, ps[j].name) < |ps|
  {}

  /** The words a run moves, and how often: once for each time it is listed, and once if it is a phandle. */
  ghost function Moves(t: Node, p: Path, k: nat, o: nat): nat
    requires HasPath(t, p)
  {
    Listings(t, p, k, o) + if IsPhandle(At(t, p).props, k) then 1 else 0
  }

  /** Every word of the overlay is moved just as often. */
  lemma Renumbering(t: Node, d: U32, p: Path, k: nat, o: nat)
    requires Renumberable(t, d) && HasPlace(t, p, k, o) && (IsPhandle(At(t, p).props, k) || ListedApart(t, p, k, o))
    ensures var u := Renumbered(t, d);
      SameShape(t, u) && HasPlace(u, p, k, o) && WordAt(u, p, k, o) == Added(WordAt(t, p, k, o), Moves(t, p, k, o), d)
    ensures d > 0 && IsPhandle(At(t, p).props, k) ==> Listings(t, p, k, o) == 0
  {
    hide *;
    PlaceOnPath(t, p, k, o);
    if d == 0 {
      NothingMoves(t);
      ShapeSelf(t);
      AddedZero(WordAt(t, p, k, o), Moves(t, p, k, o));
    } else {
      FirstPass(t, d, p, k, o);
      SecondPass(t, d, p, k, o);
      AddedSum(WordAt(t, p, k, o), if IsPhandle(At(t, p).props, k) then 1 else 0, Listings(t, p, k, o), d);
      MovesIs(t, p, k, o);
    }
  }

  lemma MovesIs(t: Node, p: Path, k: nat, o: nat)
    requires HasPath(t, p)
    ensures Moves(t, p, k, o) == Listings(t, p, k, o) + if IsPhandle(At(t, p).props, k) then 1 else 0
  {}

  lemma PlaceOnPath(t: Node, p: Path, k: nat, o: nat)
    requires HasPlace(t, p, k, o)
    ensures HasPath(t, p)
  {}

  lemma AddedZero(x: U32, times: nat)
    ensures Added(x, times, 0) == x
  {}

  lemma FirstPass(t: Node, d: U32, p: Path, k: nat, o: nat)
    requires Renumberable(t, d) && HasPlace(t, p, k, o)
    ensures var v := MoveAll(t, d);
      && HasPlace(v, p, k, o) && WordAt(v, p, k, o) ==
        Added(WordAt(t, p, k, o), if IsPhandle(At(t, p).props, k) then 1 else 0, d)
  {
    MovedAt(t, d, p);
    MovedName(At(t, p), d);
    WordMoved(At(t, p), d, k, o);
    hide MoveOwn, IsPhandle, GetU32, Added, MoveAll, Fixable, LocalFixups;
  }

  lemma SecondPass(t: Node, d: U32, p: Path, k: nat, o: nat)
    requires d > 0 && Renumberable(t, d) && HasPlace(t, p, k, o)
      && (IsPhandle(At(t, p).props, k) || ListedApart(t, p, k, o))
    ensures var v, u := MoveAll(t, d), Renumbered(t, d);
      && SameShape(t, u) && HasPlace(v, p, k, o) && HasPlace(u, p, k, o)
      && WordAt(u, p, k, o) == Added(WordAt(v, p, k, o), Listings(t, p, k, o), d)
    ensures IsPhandle(At(t, p).props, k) ==> Listings(t, p, k, o) == 0
  {
    hide LocalFixups, Renumberable, SameShape, MoveOwn, MoveAll, NoPhandles, GetU32, Added, IsPhandle, ListedTimes,
      PlacesApart, Fix;
    var v, c := MoveAll(t, d), FindChild(t.children, LocalFixups());
    SameFixups(t, d);
    ShapePlace(t, v, p, k, o);
    AddedNone(WordAt(v, p, k, o), d);
    if c < |t.children| {
      var f := t.children[c];
      if IsPhandle(At(t, p).props, k) { NoneListed(t, f, p, k, o); }
      TimesShape(t, v, f, p, k, o);
      FixWord(v, f, d, p, k, o);
      FixShape(v, f, d);
      ShapeChain(t, v, Fix(v, f, d));
    }
  }

  // ---------- what a run means ----------

  /** A phandle is moved by the difference, and a node without one still has none. */
  lemma PhandleMoved(t: Node, d: U32, q: Path)
    requires Renumberable(t, d) && HasPath(t, q)
    ensures var u := Renumbered(t, d);
      && HasPath(u, q)
      && Phandle(At(u, q)) ==
        if Present(At(t, q), PhandleName()) || Present(At(t, q), LinuxName()) then Phandle(At(t, q)) + d else 0
  {
    hide *;
    var n, u, v := At(t, q), Renumbered(t, d), MoveAll(t, d);
    MovableAt(t, d, q);
    MovedPhandle(n, d);
    MovedAt(t, d, q);
    MovedName(n, d);
    RenumberedShape(t, d);
    MovedShape(t, d);
    ShapePath(t, u, q);
    ShapePath(t, v, q);
    ShapeParts(n, At(u, q));
    ShapeParts(n, At(v, q));
    LengthsMean(n.props, At(u, q).props);
    LengthsMean(n.props, At(v, q).props);
    forall k: nat | k < |n.props| && IsPhandle(n.props, k) && 4 <= |n.props[k].value|
      ensures GetU32(At(u, q).props[k].value, 0) == GetU32(At(v, q).props[k].value, 0)
    {
      PlaceIs(t, q, k, 0);
      Renumbering(t, d, q, k, 0);
      FirstPass(t, d, q, k, 0);
      PhandleMoves(t, d, q, k);
      PlaceIs(u, q, k, 0);
      PlaceIs(v, q, k, 0);
    }
    PhandleByWords(n, At(u, q), At(v, q));
    PhandleOfProps(At(v, q), MoveOwn(n, d));
  }

  lemma LengthsMean(ps: seq<Property>, qs: seq<Property>)
    requires SameLengths(ps, qs)
    ensures |qs| == |ps| && forall k :: 0 <= k < |ps| ==> |qs[k].value| == |ps[k].value|
  {}

  lemma PhandleMoves(t: Node, d: U32, q: Path, k: nat)
    requires HasPath(t, q) && IsPhandle(At(t, q).props, k) && HasPlace(t, q, k, 0)
      && (d > 0 ==> Listings(t, q, k, 0) == 0)
    ensures Added(WordAt(t, q, k, 0), Moves(t, q, k, 0), d) == Added(WordAt(t, q, k, 0), 1, d)
  {
    hide Listings, IsPhandle, WordAt;
  }

  lemma PlaceIs(t: Node, q: Path, k: nat, o: nat)
    requires HasPath(t, q)
    ensures HasPlace(t, q, k, o) <==> k < |At(t, q).props| && o + 4 <= |At(t, q).props[k].value|
    ensures HasPlace(t, q, k, o) ==> WordAt(t, q, k, o) == GetU32(At(t, q).props[k].value, o)
    ensures IsPhandle(At(t, q).props, k) ==> k < |At(t, q).props|
  {}

  lemma MovableAt(t: Node, d: U32, q: Path)
    requires Renumberable(t, d) && HasPath(t, q)
    ensures OwnMovable(At(t, q), d)
  {
    hide OwnMovable, Fixable, MoveAll, LocalFixups;
  }

  lemma RenumberedShape(t: Node, d: U32)
    ensures SameShape(t, Renumbered(t, d))
  {
    var v := MoveAll(t, d);
    var c := FindChild(v.children, LocalFixups());
    MovedShape(t, d);
    if c < |v.children| {
      FixShape(v, v.children[c], d);
      ShapeChain(t, v, Fix(v, v.children[c], d));
    }
    hide SameShape, MoveAll, Fix, LocalFixups;
  }

  lemma PhandleOfProps(m: Node, n: Node)
    requires m.props == n.props
    ensures Phandle(m) == Phandle(n)
  {
    hide PhandleName, LinuxName;
  }

  /** Nodes of one shape with the same words where their phandles are have the same phandle. */
  lemma PhandleByWords(n: Node, l: Node, m: Node)
    requires SameLengths(n.props, l.props) && SameLengths(n.props, m.props)
    requires forall k: nat :: k < |n.props| && IsPhandle(n.props, k) && 4 <= |n.props[k].value| ==>
      GetU32(l.props[k].value, 0) == GetU32(m.props[k].value, 0)
    ensures Phandle(l) == Phandle(m)
  {
    hide PhandleName, LinuxName, GetU32;
    ShapeProps(n.props, l.props, PhandleName());
    ShapeProps(n.props, l.props, LinuxName());
    ShapeProps(n.props, m.props, PhandleName());
    ShapeProps(n.props, m.props, LinuxName());
    assert Present(n, PhandleName()) ==> IsPhandle(n.props, FindProp(n.props, PhandleName()));
    assert Present(n, LinuxName()) ==> IsPhandle(n.props, FindProp(n.props, LinuxName()));
  }

  /**
    A word that named a node by its phandle names that node afterwards if it is listed once; a word that is no
    phandle itself does so exactly when the moves beyond the first cancel modulo 2^32.
  */
  lemma ReferenceFollows(t: Node, d: U32, p: Path, k: nat, o: nat, q: Path)
    requires Renumberable(t, d) && HasPlace(t, p, k, o) && ListedApart(t, p, k, o) && HasPath(t, q)
    requires Phandle(At(t, q)) > 0 && WordAt(t, p, k, o) == Phandle(At(t, q))
    ensures var u := Renumbered(t, d);
      && HasPlace(u, p, k, o) && HasPath(u, q)
      && (Listings(t, p, k, o) == 1 ==> WordAt(u, p, k, o) == Phandle(At(u, q)))
      && (!IsPhandle(At(t, p).props, k) ==>
        (WordAt(u, p, k, o) == Phandle(At(u, q)) <==> ((Listings(t, p, k, o) - 1) * d) % WORD == 0))
  {
    hide *;
    var x := WordAt(t, p, k, o);
    PlaceOnPath(t, p, k, o);
    Renumbering(t, d, p, k, o);
    MovesIs(t, p, k, o);
    PhandleMoved(t, d, q);
    MovableAt(t, d, q);
    PhandleRange(At(t, q), d);
    PlainSum(x, d);
    AddedNone(x, d);
    AddedZero(x, Moves(t, p, k, o));
    SingleMove(x, Listings(t, p, k, o), d);
  }

  /** A word the fixups do not list keeps its value, unless it is a phandle. */
  lemma UnlistedStays(t: Node, d: U32, p: Path, k: nat, o: nat)
    requires Renumberable(t, d) && HasPlace(t, p, k, o) && ListedApart(t, p, k, o)
    requires Listings(t, p, k, o) == 0 && !IsPhandle(At(t, p).props, k)
    ensures HasPlace(Renumbered(t, d), p, k, o) && WordAt(Renumbered(t, d), p, k, o) == WordAt(t, p, k, o)
  {
    hide *;
    PlaceOnPath(t, p, k, o);
    Renumbering(t, d, p, k, o);
    MovesIs(t, p, k, o);
    AddedNone(WordAt(t, p, k, o), d);
  }

  /**
    Moved by the base's largest phandle, a node lies above the whole base exactly when it had a phandle other than
    zero.
  */
  lemma AboveTheBase(base: Node, max: U32, t: Node, q: Path)
    requires IsMaxPhandle(base, max) && Renumberable(t, max) && HasPath(t, q)
    ensures var u := Renumbered(t, max);
      && HasPath(u, q) && Phandle(At(u, q)) < NO_PHANDLE
      && (Phandle(At(t, q)) > 0 <==> forall p :: HasPath(base, p) ==> Phandle(At(base, p)) < Phandle(At(u, q)))
  {
    hide *;
    Codes();
    PhandleMoved(t, max, q);
    MovableAt(t, max, q);
    PhandleBound(At(t, q), max);
    var u := Renumbered(t, max);
    if Phandle(At(t, q)) > 0 {
      forall p | HasPath(base, p)
        ensures Phandle(At(base, p)) < Phandle(At(u, q))
      {
        BaseBound(base, max, p);
      }
    } else {
      var p := MaxIsThere(base, max);
      assert HasPath(base, p) && Phandle(At(base, p)) >= Phandle(At(u, q));
    }
  }

  lemma PhandleBound(o: Node, d: U32)
    requires OwnMovable(o, d)
    ensures Present(o, PhandleName()) || Present(o, LinuxName()) ==> Phandle(o) + d < NO_PHANDLE
    ensures Phandle(o) > 0 ==> Present(o, PhandleName()) || Present(o, LinuxName())
  {
    hide PhandleName, LinuxName, WordOf;
  }

  lemma MaxIsThere(base: Node, max: U32) returns (p: Path)
    requires IsMaxPhandle(base, max)
    ensures HasPath(base, p) && Phandle(At(base, p)) == max
  {
    if max == 0 {
      assert HasPath(base, []) && At(base, []) == base;
      p := [];
    } else {
      p :| HasPath(base, p) && Phandle(At(base, p)) == max;
    }
    hide Phandle;
  }

  /** Two nodes with phandles share one afterwards exactly when they did before. */
  lemma StillDistinct(t: Node, d: U32, p: Path, q: Path)
    requires Renumberable(t, d) && HasPath(t, p) && HasPath(t, q) && Phandle(At(t, p)) > 0 && Phandle(At(t, q)) > 0
    ensures var u := Renumbered(t, d);
      HasPath(u, p) && HasPath(u, q)
        && (Phandle(At(u, p)) == Phandle(At(u, q)) <==> Phandle(At(t, p)) == Phandle(At(t, q)))
  {
    hide *;
    PhandleMoved(t, d, p);
    PhandleMoved(t, d, q);
    MovableAt(t, d, p);
    MovableAt(t, d, q);
    PhandleBound(At(t, p), d);
    PhandleBound(At(t, q), d);
  }

  /** A phandle of zero written out is moved onto the base's largest. */
  lemma ZeroCollides()
    ensures var base, t := Node([], [Property(PhandleName(), [0, 0, 0, 1])], []),
      Node([], [Property(PhandleName(), [0, 0, 0, 0])], []);
      IsMaxPhandle(base, 1) && Renumberable(t, 1) && Phandle(base) == 1 && Phandle(Renumbered(t, 1)) == 1
  {
    var base, t := Node([], [Property(PhandleName(), [0, 0, 0, 1])], []),
      Node([], [Property(PhandleName(), [0, 0, 0, 0])], []);
    var one, zero := [0, 0, 0, 1], [0, 0, 0, 0];
    assert GetU32(one, 0) == 1 && GetU32(zero, 0) == 0;
    OnePhandle(one);
    OnePhandle(zero);
    hide *;
    PhandleMoved(t, 1, []);
    RootPath(Renumbered(t, 1));
  }

  lemma RootPath(t: Node)
    ensures HasPath(t, []) && At(t, []) == t
  {}

  /** A tree of one node, with a phandle of one word. */
  lemma OnePhandle(v: seq<Byte>)
    requires |v| == 4
    ensures var t := Node([], [Property(PhandleName(), v)], []);
      && HasPath(t, []) && At(t, []) == t && Present(t, PhandleName()) && Phandle(t) == GetU32(v, 0)
      && IsMaxPhandle(t, GetU32(v, 0)) && (GetU32(v, 0) == 0 ==> Renumberable(t, 1))
  {
    var t := Node([], [Property(PhandleName(), v)], []);
    RootPath(t);
    hide GetU32;
    assert FindProp(t.props, PhandleName()) == 0;
    assert FindProp(t.props, LinuxName()) == 1 by { NamesDiffer(); }
    hide PhandleName, LinuxName, FindProp;
    assert HasPath(t, []) && Phandle(At(t, [])) == GetU32(v, 0);
  }

  // ---------- the calls ----------

  /**
    What the second pass asks of the fixups: none names their own node, and no place lies so high that four more wrap.
  */
  ghost predicate FixupsBounded(t: Node, d: U32) {
    var c := FindChild(t.children, LocalFixups());
    c < |t.children| ==> NotItself(t, t.children[c], [], [c]) && AllBounded(MoveAll(t.children[c], d))
  }

  lemma BoundedAfter(t: Node, d: U32)
    requires FixupsBounded(t, d)
    ensures var v := MoveAll(t, d);
      var c := FindChild(v.children, LocalFixups());
      c < |v.children| ==> NotItself(v, v.children[c], [], [c]) && AllBounded(v.children[c])
  {
    hide LocalFixups, MoveOwn, AllBounded;
    var v, c := MoveAll(t, d), FindChild(t.children, LocalFixups());
    MovedShape(t, d);
    ShapeParts(t, v);
    ShapeChildren(t.children, v.children, LocalFixups());
    if c < |t.children| {
      MoveEachAt(t.children, d, c);
      var f, g := t.children[c], v.children[c];
      ShapeParts(f, g);
      forall j | 0 <= j < |g.children|
        ensures FindChild(v.children, g.children[j].name) != c
      {
        assert SameShape(f.children[j], g.children[j]);
        ShapeChildren(t.children, v.children, f.children[j].name);
      }
    }
  }

  /** The overlay's phandles and references moved above the base's, as an overlay's application begins. */
  method Renumber(fdt: Blob, fdto: Blob, ghost base: Node, ghost t: Node) returns (ret: int, delta: U32)
    requires Holds(fdt, base) && Holds(fdto, t) && EvOff(fdto.ts, 0) == 0
    requires forall d :: IsMaxPhandle(base, d) ==> FixupsBounded(t, d)
    modifies fdto, fdto.buf
    ensures fdto.Valid() && IsMaxPhandle(base, delta)
    ensures if AllMovable(t, delta) then ret == 0 || ret == -16 else ret == -6 || ret == -17
    ensures ret == 0 <==> Renumberable(t, delta)
    ensures ret == 0 ==> Holds(fdto, Renumbered(t, delta))
  {
    hide *;
    delta := FindMaxPhandle(fdt, base);
    BoundedAfter(t, delta);
    HoldsFacts(fdto, t);
    RootIs(t, MoveAll(t, delta));
    RenumberIs(t, delta);
    ret := AdjustNodePhandles(fdto, 0, delta, t, []);
    if ret != 0 { return; }
    HoldsFacts(fdto, MoveAll(t, delta));
    ret := UpdateLocalReferences(fdto, delta, MoveAll(t, delta));
  }

  lemma RenumberIs(t: Node, d: U32)
    ensures var v := MoveAll(t, d);
      var c := FindChild(v.children, LocalFixups());
      && c <= |v.children|
      && Renumbered(t, d) == (if c == |v.children| then v else Fix(v, v.children[c], d))
      && (Renumberable(t, d) <==> AllMovable(t, d) && (c == |v.children| || Fixable(v, v.children[c])))
  {}
}
