/** Merging a whole overlay: every fragment is applied to the node it names by phandle or by path. */
module DtMerge {
  import opened DtFormat
  import opened DtTree
  import opened DtEvents
  import opened DtBlob
  import opened DtRead
  import opened DtProperties
  import opened DtOverlay
  import opened DtPhandles
  import opened DtReferences

  datatype Option<T> = None | Some(value: T)

  // ---------- nodes by path ----------

  const SLASH: Byte := 47

  /** The length of the name a path begins with. */
  function NameLength(path: seq<Byte>): (n: nat)
    ensures n <= |path| && SLASH !in path[..n] && (n < |path| ==> path[n] == SLASH)
  {
    if path == [] || path[0] == SLASH then 0 else 1 + NameLength(path[1..])
  }

  /** The names between the slashes. */
  ghost function Components(path: seq<Byte>): seq<seq<Byte>>
    decreases |path|
  {
    if path == [] then []
    else if path[0] == SLASH then Components(path[1..])
    else [path[..NameLength(path)]] + Components(path[NameLength(path)..])
  }

  /** Where the names lead, each taking the first child that matches. */
  ghost function Resolve(n: Node, cs: seq<seq<Byte>>): (r: Option<Path>)
    ensures r.Some? ==> HasPath(n, r.value)
    decreases cs
  {
    if cs == [] then Some([])
    else
      var c := FindChild(n.children, cs[0]);
      if c == |n.children| then None
      else match Resolve(n.children[c], cs[1..])
        case None => None
        case Some(p) => assert ([c] + p)[1..] == p; Some([c] + p)
  }

  ghost function Below(p: Path, r: Option<Path>): Option<Path> {
    match r
    case None => None
    case Some(q) => Some(p + q)
  }

  lemma ResolveDown(n: Node, s: seq<Byte>, cs: seq<seq<Byte>>)
    ensures var c := FindChild(n.children, s);
      c <= |n.children| && Resolve(n, [s] + cs) == if c == |n.children| then None
        else Below([c], Resolve(n.children[c], cs))
  {
    assert ([s] + cs)[1..] == cs;
  }

  lemma BelowTwice(p: Path, c: nat, r: Option<Path>)
    ensures Below(p, Below([c], r)) == Below(p + [c], r)
  {
    if r.Some? { assert p + ([c] + r.value) == p + [c] + r.value; }
  }

  lemma NextComponent(path: seq<Byte>, p: nat, q: nat)
    requires p < q <= |path| && path[p] != SLASH && q == p + NameLength(path[p..])
    ensures Components(path[p..]) == [path[p..q]] + Components(path[q..])
  {
    assert path[p..][..q - p] == path[p..q] && path[p..][q - p..] == path[q..];
  }

  lemma SkipSlash(path: seq<Byte>, p: nat)
    requires p < |path| && path[p] == SLASH
    ensures Components(path[p..]) == Components(path[p + 1..])
  {
    assert path[p..][1..] == path[p + 1..];
  }

  lemma NoComponents(path: seq<Byte>)
    ensures Components(path[|path|..]) == []
  {}

  lemma SomeName(path: seq<Byte>, p: nat)
    requires p < |path| && path[p] != SLASH
    ensures 0 < NameLength(path[p..]) <= |path| - p
  {}

  lemma ResolveHere(n: Node, p: Path)
    ensures Below(p, Resolve(n, [])) == Some(p)
  {
    assert p + [] == p;
  }

  lemma BelowRootPath(r: Option<Path>)
    ensures Below([], r) == r
  {
    if r.Some? { assert [] + r.value == r.value; }
  }

  /**
    The names lead along p: at every step to the first child with the name, or with the name and a unit address when
    the name has none.
  */
  ghost predicate Leads(n: Node, cs: seq<seq<Byte>>, p: Path)
    decreases |cs|
  {
    if cs == [] then p == []
    else
      && p != [] && p[0] < |n.children|
      && (n.children[p[0]].name == cs[0] || ('@' as int !in cs[0] && cs[0] + ['@' as int] <= n.children[p[0]].name))
      && (forall k :: 0 <= k < p[0] ==>
        n.children[k].name != cs[0] && ('@' as int in cs[0] || !(cs[0] + ['@' as int] <= n.children[k].name)))
      && Leads(n.children[p[0]], cs[1..], p[1..])
  }

  lemma {:induction false} ResolveLeads(n: Node, cs: seq<seq<Byte>>, p: Path)
    ensures Resolve(n, cs) == Some(p) <==> Leads(n, cs, p)
    decreases |cs|
  {
    if cs != [] {
      var c := FindChild(n.children, cs[0]);
      FindsByName(n.children, cs[0]);
      FindsOnly(n.children, cs[0]);
      if c < |n.children| && p != [] {
        ResolveLeads(n.children[c], cs[1..], p[1..]);
        assert p == [p[0]] + p[1..];
      }
    }
  }

  /** There is one such child at most. */
  lemma FindsOnly(ns: seq<Node>, s: seq<Byte>)
    ensures forall d ::
      0 <= d < |ns| && (ns[d].name == s || ('@' as int !in s && s + ['@' as int] <= ns[d].name))
      && (forall k :: 0 <= k < d ==> ns[k].name != s && ('@' as int in s || !(s + ['@' as int] <= ns[k].name)))
      ==> d == FindChild(ns, s)
  {
    FindsByName(ns, s);
  }

  /** The text of a path: every name behind a slash. */
  ghost function Joined(cs: seq<seq<Byte>>): seq<Byte> {
    if cs == [] then [] else ['/' as int] + cs[0] + Joined(cs[1..])
  }

  /** A path is read as the names it was made from. */
  lemma {:induction false} JoinedApart(cs: seq<seq<Byte>>)
    requires forall c :: c in cs ==> c != [] && '/' as int !in c
    ensures Components(Joined(cs)) == cs
  {
    if cs != [] {
      assert cs[0] in cs && forall c :: c in cs[1..] ==> c in cs;
      JoinedFirst(cs);
      JoinedStart(cs[1..]);
      hide Components, Joined;
      JoinedApart(cs[1..]);
      FirstApart(cs[0], Joined(cs[1..]));
      assert cs == [cs[0]] + cs[1..];
    }
  }

  lemma JoinedFirst(cs: seq<seq<Byte>>)
    requires cs != []
    ensures Joined(cs) == ['/' as int] + (cs[0] + Joined(cs[1..]))
  {
    hide Joined;
    assert ['/' as int] + cs[0] + Joined(cs[1..]) == ['/' as int] + (cs[0] + Joined(cs[1..]));
    JoinedIs(cs);
  }

  lemma JoinedIs(cs: seq<seq<Byte>>)
    requires cs != []
    ensures Joined(cs) == ['/' as int] + cs[0] + Joined(cs[1..])
  {}

  lemma JoinedStart(cs: seq<seq<Byte>>)
    ensures Joined(cs) != [] ==> Joined(cs)[0] == '/' as int
  {}

  lemma FirstApart(c: seq<Byte>, rest: seq<Byte>)
    requires c != [] && '/' as int !in c && (rest != [] ==> rest[0] == '/' as int)
    ensures Components(['/' as int] + (c + rest)) == [c] + Components(rest)
  {
    NameUpTo(c, rest);
    var s := c + rest;
    hide NameLength;
    assert (['/' as int] + s)[1..] == s && s[0] == c[0] && s[..|c|] == c && s[|c|..] == rest;
  }

  lemma {:induction false} NameUpTo(c: seq<Byte>, rest: seq<Byte>)
    requires '/' as int !in c && (rest != [] ==> rest[0] == '/' as int)
    ensures NameLength(c + rest) == |c|
  {
    if c == [] {
      assert c + rest == rest;
    } else {
      assert (c + rest)[1..] == c[1..] + rest && (c + rest)[0] == c[0];
      NameUpTo(c[1..], rest);
    }
  }

  /** A child is found by a slash and its name, if no child before it answers to that name. */
  lemma ChildByPath(t: Node, s: seq<Byte>, c: nat)
    requires s != [] && '/' as int !in s && c < |t.children| && t.children[c].name == s
    requires forall k :: 0 <= k < c ==> t.children[k].name != s && !(s + ['@' as int] <= t.children[k].name)
    ensures Resolve(t, Components(['/' as int] + s)) == Some([c])
  {
    assert Joined([s]) == ['/' as int] + s;
    JoinedApart([s]);
    assert [c][1..] == [] && [s][1..] == [];
    assert Leads(t.children[c], [s][1..], [c][1..]);
    hide Components, Joined, Resolve;
    ResolveLeads(t, [s], [c]);
  }

  /** The offset of the node an absolute path leads to. */
  method PathOffset(b: Blob, path: seq<Byte>, ghost t: Node) returns (r: int, ghost at: Path)
    requires Holds(b, t) && EvOff(b.ts, 0) == 0 && path != [] && path[0] == SLASH
    ensures match Resolve(t, Components(path))
      case None => r == -ERR_NOTFOUND
      case Some(p) => at == p && r == EvOff(b.ts, Place(t, p))
    ensures r >= 0 ==> Leads(t, Components(path), at)
    ensures r < 0 ==> r == -ERR_NOTFOUND && forall p :: !Leads(t, Components(path), p)
  {
    r, at := WalkPath(b, path, t);
    PathMeans(t, Components(path), r, at);
  }

  lemma PathMeans(t: Node, cs: seq<seq<Byte>>, r: int, at: Path)
    requires r >= 0 ==> Resolve(t, cs) == Some(at)
    requires r < 0 ==> Resolve(t, cs).None?
    ensures r >= 0 ==> Leads(t, cs, at)
    ensures r < 0 ==> forall p :: !Leads(t, cs, p)
  {
    ResolveLeads(t, cs, at);
    if r < 0 {
      forall p
        ensures !Leads(t, cs, p)
      {
        ResolveLeads(t, cs, p);
      }
    }
  }

  method WalkPath(b: Blob, path: seq<Byte>, ghost t: Node) returns (r: int, ghost at: Path)
    requires Holds(b, t) && EvOff(b.ts, 0) == 0 && path != [] && path[0] == SLASH
    ensures match Resolve(t, Components(path))
      case None => r == -ERR_NOTFOUND
      case Some(p) => at == p && r == EvOff(b.ts, Place(t, p))
  {
    hide *;
    HoldsFacts(b, t);
    Known(b);
    TagsDiffer();
    RootIs(t, t);
    var offset, p, end := 0, 0, |path|;
    at := [];
    assert path[0..] == path;
    BelowRootPath(Resolve(t, Components(path)));
    while p < end
      invariant p <= end && HasPath(t, at) && offset == EvOff(b.ts, Place(t, at))
      invariant Resolve(t, Components(path)) == Below(at, Resolve(At(t, at), Components(path[p..])))
      decreases end - p
    {
      while path[p] == SLASH
        invariant p < end && HasPath(t, at) && offset == EvOff(b.ts, Place(t, at))
        invariant Resolve(t, Components(path)) == Below(at, Resolve(At(t, at), Components(path[p..])))
        decreases end - p
      {
        SkipSlash(path, p);
        p := p + 1;
        if p == end {
          Arrived(path, At(t, at), at);
          return offset, at;
        }
      }
      SomeName(path, p);
      var q := p + NameLength(path[p..]);
      ghost var n := At(t, at);
      ghost var c, rest := FindChild(n.children, path[p..q]), Components(path[q..]);
      NextComponent(path, p, q);
      ResolveDown(n, path[p..q], rest);
      Placed(t, at);
      offset := SubnodeOffset(b, offset, path[p..q], Place(t, at), n);
      if offset < 0 {
        NowhereBelow(at);
        return offset, at;
      }
      ChildPlace(t, at, c);
      BelowTwice(at, c, Resolve(n.children[c], rest));
      at := at + [c];
      p := q;
    }
    Arrived(path, At(t, at), at);
    r := offset;
  }

  lemma Arrived(path: seq<Byte>, n: Node, at: Path)
    ensures Below(at, Resolve(n, Components(path[|path|..]))) == Some(at)
  {
    NoComponents(path);
    ResolveHere(n, at);
  }

  lemma NowhereBelow(at: Path)
    ensures Below(at, None) == None
  {}

  // ---------- nodes by phandle ----------

  /** No node that begins before event c has the phandle. */
  ghost predicate NoneWith(t: Node, phandle: U32, c: nat) {
    forall p :: HasPath(t, p) && Place(t, p) < c ==> Phandle(At(t, p)) != phandle
  }

  /** The first node with the phandle. */
  ghost predicate FirstWith(t: Node, phandle: U32, p: Path) {
    HasPath(t, p) && Phandle(At(t, p)) == phandle && NoneWith(t, phandle, Place(t, p))
  }

  lemma FirstOnce(t: Node, phandle: U32, p: Path, q: Path)
    requires FirstWith(t, phandle, p) && FirstWith(t, phandle, q)
    ensures p == q
  {
    SamePlace(t, p, q);
  }

  lemma NoneOn(t: Node, phandle: U32, c: nat, at: nat)
    requires NoneWith(t, phandle, c) && c <= at <= |Flatten(t)| && forall x :: c <= x < at ==> !Flatten(t)[x].Enter?
    ensures NoneWith(t, phandle, at)
  {
    forall p | HasPath(t, p) && Place(t, p) < at
      ensures Phandle(At(t, p)) != phandle
    {
      Placed(t, p);
    }
  }

  lemma NoneAt(t: Node, phandle: U32, p: Path)
    requires HasPath(t, p) && NoneWith(t, phandle, Place(t, p)) && Phandle(At(t, p)) != phandle
    ensures NoneWith(t, phandle, Place(t, p) + 1)
  {
    forall q | HasPath(t, q) && Place(t, q) < Place(t, p) + 1
      ensures Phandle(At(t, q)) != phandle
    {
      if Place(t, q) == Place(t, p) { SamePlace(t, p, q); }
    }
  }

  lemma NoneYet(t: Node, phandle: U32)
    ensures NoneWith(t, phandle, 0)
  {}

  lemma FoundFirst(t: Node, phandle: U32, p: Path)
    requires HasPath(t, p) && NoneWith(t, phandle, Place(t, p)) && Phandle(At(t, p)) == phandle
    ensures FirstWith(t, phandle, p)
  {}

  lemma NoneAtAll(t: Node, phandle: U32)
    requires NoneWith(t, phandle, |Flatten(t)|)
    ensures forall p :: !FirstWith(t, phandle, p)
  {
    forall p | HasPath(t, p)
      ensures Phandle(At(t, p)) != phandle
    {
      Placed(t, p);
    }
  }

  /** The first node in the order of the line that has the phandle. */
  method NodeOffsetByPhandle(b: Blob, phandle: U32, ghost t: Node) returns (r: int, ghost at: Path)
    requires Holds(b, t)
    ensures phandle == 0 || phandle == NO_PHANDLE ==> r == -ERR_BADPHANDLE
    ensures r >= 0 ==> FirstWith(t, phandle, at) && HasPath(t, at) && r == EvOff(b.ts, Place(t, at))
    ensures r < 0 && phandle != 0 && phandle != NO_PHANDLE ==> forall p :: !FirstWith(t, phandle, p)
  {
    hide *;
    at := [];
    Codes();
    if phandle == 0 || phandle == NO_PHANDLE { return -ERR_BADPHANDLE, at; }
    HoldsFacts(b, t);
    Known(b);
    NodesNotEmpty(t);
    NoneYet(t, phandle);
    var offset := -1;
    ghost var es, i: int := b.Line(), -1;
    while true
      invariant -1 <= i < |es| && (if offset < 0 then i == -1 else i >= 0 && es[i].Enter? && offset == EvOff(b.ts, i))
      invariant NoneWith(t, phandle, i + 1)
      decreases |es| - i
    {
      ghost var next, stop;
      var d;
      offset, d, next, stop := NextNode(b, offset, false, 0, i);
      UntrackedStop(es, b.ts, i, offset, d, next, stop);
      NoneOn(t, phandle, i + 1, if offset < 0 then |es| else next);
      if offset < 0 {
        NoneAtAll(t, phandle);
        return offset, at;
      }
      at := EnterInside(t, next);
      Placed(t, at);
      var value := GetPhandle(b, offset, next, At(t, at));
      if value == phandle {
        FoundFirst(t, phandle, at);
        return offset, at;
      }
      NoneAt(t, phandle, at);
      i := next;
    }
  }

  // ---------- the target of a fragment ----------

  /** The property names and the name of the subnode, in ASCII. */
  function TargetName(): seq<Byte> {
    [116, 97, 114, 103, 101, 116]
  }

  function TargetPathName(): seq<Byte> {
    TargetName() + [45, 112, 97, 116, 104]
  }

  function OverlayName(): seq<Byte> {
    [95, 95, 111, 118, 101, 114, 108, 97, 121, 95, 95]
  }

  /** The names, letter by letter. */
  lemma OverlayNames()
    ensures TargetName() == Ascii("target") && TargetPathName() == Ascii("target-path")
    ensures OverlayName() == Ascii("__overlay__")
  {}

  /** The phandle a fragment names: zero for none, and the reserved value when it is malformed. */
  ghost function TargetPhandle(f: Node): U32 {
    if !Present(f, TargetName()) then 0
    else if !HasWord(f, TargetName()) then NO_PHANDLE
    else WordOf(f, TargetName())
  }

  /** The text up to the zero byte. */
  function Text(v: seq<Byte>): (s: seq<Byte>)
    ensures s <= v && 0 !in s && (|s| < |v| ==> v[|s|] == 0)
  {
    if v == [] || v[0] == 0 then [] else [v[0]] + Text(v[1..])
  }

  /** A fragment's path, if it states one, is absolute and ended by a zero byte. */
  ghost predicate PathOk(f: Node) {
    Present(f, TargetPathName()) ==>
      var v := ValueOf(f, TargetPathName());
      0 in v && v[0] == SLASH
  }

  /** The node of the base tree a fragment is for: by phandle, or by path when it names no phandle. */
  ghost predicate IsTarget(t: Node, f: Node, p: Path) {
    if TargetPhandle(f) == 0 then
      Present(f, TargetPathName()) && Resolve(t, Components(Text(ValueOf(f, TargetPathName())))) == Some(p)
    else TargetPhandle(f) != NO_PHANDLE && FirstWith(t, TargetPhandle(f), p)
  }

  lemma TargetOnce(t: Node, f: Node, p: Path, q: Path)
    requires IsTarget(t, f, p) && IsTarget(t, f, q)
    ensures p == q && HasPath(t, p)
  {
    if TargetPhandle(f) != 0 { FirstOnce(t, TargetPhandle(f), p, q); }
  }

  method GetTargetPhandle(fdto: Blob, fragment: int, ghost u: Node, ghost q: Path) returns (phandle: U32)
    requires Holds(fdto, u) && HasPath(u, q) && fragment == EvOff(fdto.ts, Place(u, q))
    ensures phandle == TargetPhandle(At(u, q))
  {
    hide *;
    HoldsFacts(fdto, u);
    Codes();
    Placed(u, q);
    WordFacts(At(u, q), TargetName());
    TargetMeans(At(u, q));
    var prop, val := GetProperty(fdto, fragment, TargetName(), Place(u, q), At(u, q));
    if prop < 0 { return 0; }
    if |val| != 4 || GetU32(val, 0) == NO_PHANDLE { return NO_PHANDLE; }
    return GetU32(val, 0);
  }

  lemma TargetMeans(f: Node)
    ensures TargetPhandle(f) == if !Present(f, TargetName()) then 0
      else if !HasWord(f, TargetName()) then NO_PHANDLE else WordOf(f, TargetName())
  {}

  /** The offset of the node a fragment is for. */
  method GetTarget(fdt: Blob, fdto: Blob, fragment: int, ghost t: Node, ghost u: Node, ghost q: Path)
    returns (ret: int, ghost at: Path)
    requires Holds(fdt, t) && EvOff(fdt.ts, 0) == 0
    requires Holds(fdto, u) && HasPath(u, q) && fragment == EvOff(fdto.ts, Place(u, q)) && PathOk(At(u, q))
    ensures ret >= 0 ==> IsTarget(t, At(u, q), at) && HasPath(t, at) && ret == EvOff(fdt.ts, Place(t, at))
    ensures ret < 0 ==> forall p :: !IsTarget(t, At(u, q), p)
  {
    hide *;
    HoldsFacts(fdto, u);
    Codes();
    Placed(u, q);
    at := [];
    var phandle := GetTargetPhandle(fdto, fragment, u, q);
    NoTarget(t, At(u, q));
    if phandle == NO_PHANDLE { return -ERR_BADPHANDLE, at; }
    if phandle == 0 {
      WordFacts(At(u, q), TargetPathName());
      var prop, path := GetProperty(fdto, fragment, TargetPathName(), Place(u, q), At(u, q));
      if prop < 0 { return -ERR_BADOVERLAY, at; }
      PathFacts(At(u, q));
      ret, at := PathOffset(fdt, Text(path), t);
    } else {
      ret, at := NodeOffsetByPhandle(fdt, phandle, t);
    }
    if ret >= 0 { TargetIs(t, At(u, q), at); }
  }

  lemma PathFacts(f: Node)
    requires Present(f, TargetPathName()) && PathOk(f)
    ensures var k := FindProp(f.props, TargetPathName());
      k < |f.props| && ValueOf(f, TargetPathName()) == f.props[k].value && Text(f.props[k].value) != []
        && Text(f.props[k].value)[0] == SLASH
  {}

  lemma TargetIs(t: Node, f: Node, p: Path)
    requires if TargetPhandle(f) == 0 then Present(f, TargetPathName())
      && Resolve(t, Components(Text(ValueOf(f, TargetPathName())))) == Some(p)
      else TargetPhandle(f) != NO_PHANDLE && FirstWith(t, TargetPhandle(f), p)
    ensures IsTarget(t, f, p)
  {}

  lemma NoTarget(t: Node, f: Node)
    ensures ERR_BADOVERLAY == 16
    ensures TargetPhandle(f) == NO_PHANDLE ==> forall p :: !IsTarget(t, f, p)
    ensures TargetPhandle(f) == 0 && !Present(f, TargetPathName()) ==> forall p :: !IsTarget(t, f, p)
    ensures TargetPhandle(f) == 0 && Present(f, TargetPathName()) ==>
      Resolve(t, Components(Text(ValueOf(f, TargetPathName())))).None? ==> forall p :: !IsTarget(t, f, p)
    ensures TargetPhandle(f) != 0 && (forall p :: !FirstWith(t, TargetPhandle(f), p)) ==> forall p :: !IsTarget(t, f, p)
  {}

  // ---------- all fragments ----------

  /** What one fragment does to the base tree; one without an overlay node does nothing. */
  ghost predicate FragmentMerged(t: Node, f: Node, v: Node) {
    var c := FindChild(f.children, OverlayName());
    if c == |f.children| then v == t
    else exists p :: IsTarget(t, f, p) && HasPath(t, p) && v == Replace(t, p, Merge(At(t, p), f.children[c]))
  }

  /** The fragments merged one after the other, each finding its target in the tree as it then is. */
  ghost predicate Merged(t: Node, fs: seq<Node>, v: Node)
    decreases |fs|, 1
  {
    if fs == [] then v == t else exists w :: MergedVia(t, fs, w, v)
  }

  /** All but the last fragment give w, and the last one v. */
  ghost predicate MergedVia(t: Node, fs: seq<Node>, w: Node, v: Node)
    requires fs != []
    decreases |fs|, 0
  {
    Merged(t, fs[..|fs| - 1], w) && FragmentMerged(w, fs[|fs| - 1], v)
  }

  // ---------- the same with the names written out ----------

  /** A fragment with a target path and without a target is for the node the path leads to. */
  lemma TargetByPath(t: Node, f: Node, path: seq<Byte>, rest: seq<Byte>, p: Path)
    requires FindProp(f.props, Ascii("target")) == |f.props| && 0 !in path
    requires FindProp(f.props, Ascii("target-path")) < |f.props|
    requires ValueOf(f, Ascii("target-path")) == path + [0] + rest
    ensures IsTarget(t, f, p) <==> Leads(t, Components(path), p)
  {
    OverlayNames();
    TextIs(path, rest);
    ResolveLeads(t, Components(path), p);
    hide TargetName, TargetPathName, FindProp, Resolve, Leads, Components, Text;
  }

  lemma {:induction false} TextIs(path: seq<Byte>, rest: seq<Byte>)
    requires 0 !in path
    ensures Text(path + [0] + rest) == path
  {
    if path != [] {
      TextIs(path[1..], rest);
      assert (path + [0] + rest)[1..] == path[1..] + [0] + rest;
    }
  }

  /** A fragment whose target is a word that can be a phandle is for the first node with that phandle. */
  lemma TargetByPhandle(t: Node, f: Node, a: Byte, b: Byte, c: Byte, d: Byte, p: Path)
    requires FindProp(f.props, Ascii("target")) < |f.props| && ValueOf(f, Ascii("target")) == [a, b, c, d]
    requires 0 < 0x100_0000 * a + 0x1_0000 * b + 0x100 * c + d < 0xffff_ffff
    ensures IsTarget(t, f, p) <==> FirstWith(t, 0x100_0000 * a + 0x1_0000 * b + 0x100 * c + d, p)
  {
    OverlayNames();
    WordBytes(a, b, c, d);
    Codes();
    hide TargetName, TargetPathName, FindProp, GetU32, PutU32, FirstWith;
  }

  /** Child c of a fragment is the one taken for its overlay. */
  ghost predicate IsOverlay(f: Node, c: nat) {
    && c < |f.children|
    && (f.children[c].name == Ascii("__overlay__") || Ascii("__overlay__@") <= f.children[c].name)
    && forall k :: 0 <= k < c ==>
      f.children[k].name != Ascii("__overlay__") && !(Ascii("__overlay__@") <= f.children[k].name)
  }

  lemma OverlayChild(f: Node, c: nat)
    ensures IsOverlay(f, c) <==> c == FindChild(f.children, OverlayName()) < |f.children|
  {
    OverlayNames();
    AtBehind();
    FindsByName(f.children, Ascii("__overlay__"));
    hide FindChild, Ascii, OverlayName;
  }

  lemma AtBehind()
    ensures Ascii("__overlay__@") == Ascii("__overlay__") + ['@' as int] && '@' as int !in Ascii("__overlay__")
  {}

  /** A fragment with a target and an overlay leads to the tree with the two merged at the target. */
  lemma FragmentByName(t: Node, f: Node, c: nat, p: Path, v: Node)
    requires IsOverlay(f, c) && IsTarget(t, f, p)
    ensures HasPath(t, p) && (FragmentMerged(t, f, v) <==> v == Replace(t, p, Merge(At(t, p), f.children[c])))
  {
    OverlayChild(f, c);
    TargetOnce(t, f, p, p);
    hide IsOverlay, IsTarget, FindChild, OverlayName, Merge;
    forall q | FragmentMerged(t, f, v) && IsTarget(t, f, q)
      ensures q == p
    {
      TargetOnce(t, f, p, q);
    }
  }

  /** Afterwards the target has every property of the overlay, with the last value the overlay gives it. */
  lemma OverlayReadable(t: Node, f: Node, c: nat, p: Path, v: Node, j: nat)
    requires IsOverlay(f, c) && IsTarget(t, f, p) && FragmentMerged(t, f, v) && j < |f.children[c].props|
    requires forall i :: j < i < |f.children[c].props| ==> f.children[c].props[i].name != f.children[c].props[j].name
    ensures HasPath(v, p) && FindProp(At(v, p).props, f.children[c].props[j].name) < |At(v, p).props|
    ensures ValueOf(At(v, p), f.children[c].props[j].name) == f.children[c].props[j].value
  {
    var o := f.children[c];
    FragmentByName(t, f, c, p, v);
    hide IsOverlay, IsTarget, FragmentMerged;
    ReplaceAt(t, p, Merge(At(t, p), o));
    MergeParts(At(t, p), o);
    MergeKeepsProps(SetAll(At(t, p), o.props), o.children);
    SetAllValue(At(t, p), o.props, o.props[j].name);
    LastIs(o.props, j);
    SameProps(At(v, p), SetAll(At(t, p), o.props), o.props[j].name);
  }

  /** An overlay of one fragment merges that fragment. */
  lemma MergedOne(t: Node, f: Node, v: Node)
    ensures FragmentMerged(t, f, v) ==> Merged(t, [f], v)
    ensures Merged(t, [f], v) ==> FragmentMerged(t, f, v)
  {
    if FragmentMerged(t, f, v) {
      assert [f][..0] == [];
      assert MergedVia(t, [f], t, v);
    }
    if Merged(t, [f], v) { OneIsMerged(t, [f], v); }
  }

  lemma OneIsMerged(t: Node, fs: seq<Node>, v: Node)
    requires |fs| == 1 && Merged(t, fs, v)
    ensures FragmentMerged(t, fs[0], v)
  {
    var w :| MergedVia(t, fs, w, v);
    assert fs[..|fs| - 1] == [] && Merged(t, [], w);
  }

  lemma MergeParts(n: Node, o: Node)
    ensures Merge(n, o) == MergeChildren(SetAll(n, o.props), o.children)
  {}

  lemma {:induction false} LastIs(ps: seq<Property>, j: nat)
    requires j < |ps| && forall i :: j < i < |ps| ==> ps[i].name != ps[j].name
    ensures LastValue(ps, ps[j].name) == (true, ps[j].value)
  {
    if j > 0 {
      LastIs(ps[1..], j - 1);
    } else {
      NoLast(ps[1..], ps[0].name);
    }
  }

  lemma {:induction false} NoLast(ps: seq<Property>, name: seq<Byte>)
    requires forall i :: 0 <= i < |ps| ==> ps[i].name != name
    ensures !LastValue(ps, name).0
  {
    if ps != [] { NoLast(ps[1..], name); }
  }

  lemma SameProps(m: Node, n: Node, name: seq<Byte>)
    requires m.props == n.props && FindProp(n.props, name) < |n.props|
    ensures FindProp(m.props, name) < |m.props| && ValueOf(m, name) == ValueOf(n, name)
  {}

  /** An overlay can be merged into a tree in one way only. */
  lemma {:induction false} MergedOnce(t: Node, fs: seq<Node>, v: Node, v': Node)
    requires Merged(t, fs, v) && Merged(t, fs, v')
    ensures v == v'
  {
    if fs != [] {
      var w :| MergedVia(t, fs, w, v);
      var w' :| MergedVia(t, fs, w', v');
      MergedOnce(t, fs[..|fs| - 1], w, w');
      FragmentOnce(w, fs[|fs| - 1], v, v');
    }
  }

  lemma FragmentOnce(t: Node, f: Node, v: Node, v': Node)
    requires FragmentMerged(t, f, v) && FragmentMerged(t, f, v')
    ensures v == v'
  {
    hide IsTarget, Merge;
    var c := FindChild(f.children, OverlayName());
    if c < |f.children| {
      var p :| IsTarget(t, f, p) && HasPath(t, p) && v == Replace(t, p, Merge(At(t, p), f.children[c]));
      var q :| IsTarget(t, f, q) && HasPath(t, q) && v' == Replace(t, q, Merge(At(t, q), f.children[c]));
      TargetOnce(t, f, p, q);
    }
  }

  /** The most room a fragment can take. */
  ghost function FragmentNeed(f: Node): nat {
    var c := FindChild(f.children, OverlayName());
    if c == |f.children| then 0 else Need(f.children[c])
  }

  ghost function FragmentsNeed(fs: seq<Node>): nat {
    if fs == [] then 0 else FragmentsNeed(fs[..|fs| - 1]) + FragmentNeed(fs[|fs| - 1])
  }

  /** A fragment merged in part into its target. */
  ghost predicate FragmentPart(t: Node, f: Node, v: Node) {
    var c := FindChild(f.children, OverlayName());
    c < |f.children| && exists p, m :: IsTarget(t, f, p) && HasPath(t, p) && PartAtTarget(t, f.children[c], p, m, v)
  }

  ghost predicate PartAtTarget(t: Node, o: Node, p: Path, m: Node, v: Node)
    requires HasPath(t, p)
  {
    PartMerged(At(t, p), o, m) && v == Replace(t, p, m)
  }

  /** What a fragment that failed has left: nothing done for want of a target, or a merge that stopped. */
  ghost predicate Failed(t: Node, f: Node, v: Node) {
    (v == t && Homeless(t, f)) || FragmentPart(t, f, v)
  }

  /** A fragment with an overlay node, but without a node to apply it to. */
  ghost predicate Homeless(t: Node, f: Node) {
    FindChild(f.children, OverlayName()) < |f.children| && forall p :: !IsTarget(t, f, p)
  }

  lemma FragmentFacts(t: Node, f: Node)
    ensures var c := FindChild(f.children, OverlayName());
      && c <= |f.children| && FragmentNeed(f) == (if c == |f.children| then 0 else Need(f.children[c]))
      && (c == |f.children| ==> FragmentMerged(t, f, t))
      && (c < |f.children| && (forall p :: !IsTarget(t, f, p)) ==> Homeless(t, f))
  {}

  lemma FragmentIs(t: Node, f: Node, p: Path, c: nat, m: Node)
    requires c == FindChild(f.children, OverlayName()) < |f.children| && IsTarget(t, f, p) && HasPath(t, p)
    ensures m == Merge(At(t, p), f.children[c]) ==> FragmentMerged(t, f, Replace(t, p, m))
    ensures PartMerged(At(t, p), f.children[c], m) ==> Failed(t, f, Replace(t, p, m))
  {
    hide PartMerged, Merge, IsTarget;
    if PartMerged(At(t, p), f.children[c], m) { assert PartAtTarget(t, f.children[c], p, m, Replace(t, p, m)); }
  }

  lemma HomelessFails(t: Node, f: Node)
    ensures Homeless(t, f) ==> Failed(t, f, t)
  {}

  /** One fragment. */
  method MergeFragment(fdt: Blob, fdto: Blob, fragment: int, ghost t: Node, ghost u: Node, ghost q: Path)
    returns (ret: int, ghost v: Node)
    requires Holds(fdt, t) && EvOff(fdt.ts, 0) == 0 && fdt != fdto && fdt.buf != fdto.buf
    requires Holds(fdto, u) && HasPath(u, q) && fragment == EvOff(fdto.ts, Place(u, q)) && PathOk(At(u, q))
    modifies fdt, fdt.buf
    ensures fdt.Valid() && fdt.Front() == old(fdt.Front()) && fdt.totalsize == old(fdt.totalsize)
    ensures Holds(fdt, v) && if ret == 0 then FragmentMerged(t, At(u, q), v) else Failed(t, At(u, q), v)
    ensures ret == 0 ==> EvOff(fdt.ts, 0) == 0
    ensures ret == 0 ==> fdt.DataSize() <= old(fdt.DataSize()) + FragmentNeed(At(u, q))
    ensures ret != 0 ==> Homeless(t, At(u, q)) || old(fdt.DataSize()) + FragmentNeed(At(u, q)) > fdt.totalsize
  {
    hide *;
    HoldsFacts(fdt, t);
    HoldsFacts(fdto, u);
    TagsDiffer();
    Placed(u, q);
    ghost var f := At(u, q);
    ghost var c := FindChild(f.children, OverlayName());
    FragmentFacts(t, f);
    HomelessFails(t, f);
    v := t;
    var overlay := SubnodeOffset(fdto, fragment, OverlayName(), Place(u, q), f);
    if overlay == -ERR_NOTFOUND { return 0, v; }
    if overlay < 0 { return overlay, v; }
    var target;
    ghost var p;
    target, p := GetTarget(fdt, fdto, fragment, t, u, q);
    if target < 0 { return target, v; }
    ChildPlace(u, q, c);
    ghost var ts := fdt.ts;
    ghost var m;
    ret, m := ApplyNode(fdt, target, fdto, overlay, t, p, u, q + [c]);
    FragmentIs(t, f, p, c, m);
    v := Replace(t, p, m);
    if ret == 0 {
      HoldsFacts(fdt, v);
      KeptLess(ts, fdt.ts, Place(t, p), 0);
    }
  }

  lemma MergedStart(t: Node, fs: seq<Node>)
    ensures Merged(t, fs[..0], t) && FragmentsNeed(fs[..0]) == 0
  {
    assert fs[..0] == [];
  }

  lemma MergedStep(t: Node, fs: seq<Node>, k: nat, w: Node, v: Node)
    requires k < |fs| && Merged(t, fs[..k], w) && FragmentMerged(w, fs[k], v)
    ensures Merged(t, fs[..k + 1], v)
  {
    var gs := fs[..k + 1];
    assert gs[..|gs| - 1] == fs[..k] && gs[|gs| - 1] == fs[k];
    assert MergedVia(t, gs, w, v);
  }

  lemma {:induction false} NeedUpTo(fs: seq<Node>, k: nat)
    requires k < |fs|
    ensures FragmentsNeed(fs[..k + 1]) == FragmentsNeed(fs[..k]) + FragmentNeed(fs[k]) <= FragmentsNeed(fs)
    decreases |fs|
  {
    var gs := fs[..k + 1];
    assert gs[..|gs| - 1] == fs[..k] && gs[|gs| - 1] == fs[k];
    if k + 1 < |fs| {
      var hs := fs[..|fs| - 1];
      NeedUpTo(hs, k);
      assert hs[..k + 1] == gs;
    } else {
      assert gs == fs;
    }
  }

  /**
    Merges every fragment of the overlay. When it succeeds the base tree is the one way of merging them; it
    fails only at a fragment that has no target in the tree so far, or when there was less room than the
    fragments can take. Then the base holds the fragments before that one, and of that one what its merge did.
  */
  method MergeOverlay(fdt: Blob, fdto: Blob, ghost t: Node, ghost u: Node)
    returns (ret: int, ghost v: Node, ghost k: nat, ghost w: Node)
    requires Holds(fdt, t) && EvOff(fdt.ts, 0) == 0 && fdt != fdto && fdt.buf != fdto.buf
    requires Holds(fdto, u) && EvOff(fdto.ts, 0) == 0 && forall c :: 0 <= c < |u.children| ==> PathOk(u.children[c])
    modifies fdt, fdt.buf
    ensures fdt.Valid() && fdt.Front() == old(fdt.Front()) && fdt.totalsize == old(fdt.totalsize)
    ensures k <= |u.children| && Merged(t, u.children[..k], v) && (ret == 0 <==> k == |u.children|)
    ensures Holds(fdt, w) && if ret == 0 then w == v && Merged(t, u.children, v) else Failed(v, u.children[k], w)
    ensures ret != 0 ==> Homeless(v, u.children[k]) || old(fdt.DataSize()) + FragmentsNeed(u.children) > fdt.totalsize
  {
    hide *;
    HoldsFacts(fdt, t);
    HoldsFacts(fdto, u);
    TagsDiffer();
    RootIs(u, u);
    Placed(u, []);
    ghost var fs, front, total, d := u.children, fdt.Front(), fdt.totalsize, fdt.DataSize();
    MergedStart(t, fs);
    k, v, w := 0, t, t;
    var fragment := FirstSubnode(fdto, 0, 0, u);
    while fragment >= 0
      invariant k <= |fs| && fragment == if k < |fs| then EvOff(fdto.ts, ChildPos(u, k)) else -ERR_NOTFOUND
      invariant w == v && fdt.Valid() && AllWf(fdt.ts) && fdt.Layout() && Holds(fdt, v) && EvOff(fdt.ts, 0) == 0
        && Merged(t, fs[..k], v)
      invariant fdt.Front() == front && fdt.totalsize == total && fdt.DataSize() <= d + FragmentsNeed(fs[..k])
      decreases |fs| - k
    {
      ChildPlace(u, [], k);
      BelowRoot(k);
      NeedUpTo(fs, k);
      ret, w := MergeFragment(fdt, fdto, fragment, v, u, [k]);
      Known(fdt);
      if ret != 0 { return; }
      HoldsFacts(fdt, w);
      MergedStep(t, fs, k, v, w);
      fragment := NextSubnode(fdto, fragment, 0, u, k);
      v := w;
      k := k + 1;
    }
    assert fs[..k] == fs;
    ret := 0;
  }
}
