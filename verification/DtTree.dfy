/**
  Device trees as values, their flattening into a line of events, and what one place in the line means for the tree.
*/
module DtTree {
  import opened DtFormat

  datatype Property = Property(name: seq<Byte>, value: seq<Byte>)
  datatype Node = Node(name: seq<Byte>, props: seq<Property>, children: seq<Node>)

  /** What a token says once property names are looked up and fillers are dropped. */
  datatype Event = Enter(name: seq<Byte>) | Attr(prop: Property) | Leave

  ghost function Attrs(ps: seq<Property>): (r: seq<Event>)
    ensures |r| == |ps| && forall i :: 0 <= i < |ps| ==> r[i] == Attr(ps[i])
  {
    seq(|ps|, i requires 0 <= i < |ps| => Attr(ps[i]))
  }

  ghost function Flatten(n: Node): seq<Event>
    decreases n, 1
  {
    [Enter(n.name)] + Attrs(n.props) + FlattenAll(n.children) + [Leave]
  }

  ghost function FlattenAll(ns: seq<Node>): seq<Event>
    decreases ns, 0
  {
    if ns == [] then [] else Flatten(ns[0]) + FlattenAll(ns[1..])
  }

  lemma {:induction false} FlattenConcat(a: seq<Node>, b: seq<Node>)
    ensures FlattenAll(a + b) == FlattenAll(a) + FlattenAll(b)
  {
    if a == [] {
      assert a + b == b;
    } else {
      assert (a + b)[1..] == a[1..] + b;
      FlattenConcat(a[1..], b);
      assert Flatten(a[0]) + (FlattenAll(a[1..]) + FlattenAll(b)) == Flatten(a[0]) + FlattenAll(a[1..]) + FlattenAll(b);
    }
  }

  lemma FlattenOne(n: Node)
    ensures FlattenAll([n]) == Flatten(n)
  {
    assert [n][1..] == [];
    assert Flatten(n) + [] == Flatten(n);
  }

  lemma FlattenAt(ns: seq<Node>, c: nat)
    requires c < |ns|
    ensures FlattenAll(ns) == FlattenAll(ns[..c]) + Flatten(ns[c]) + FlattenAll(ns[c + 1..])
  {
    hide *;
    CutAt(ns, c);
    FlattenConcat(ns[..c] + [ns[c]], ns[c + 1..]);
    FlattenConcat(ns[..c], [ns[c]]);
    FlattenOne(ns[c]);
  }

  lemma CutAt(ns: seq<Node>, c: nat)
    requires c < |ns|
    ensures ns == ns[..c] + [ns[c]] + ns[c + 1..]
  {}

  // ---------- the tree is determined by its events ----------

  lemma Head(n: Node, x: seq<Event>)
    ensures (Flatten(n) + x)[0] == Enter(n.name)
    ensures (Flatten(n) + x)[1..] == Attrs(n.props) + (FlattenAll(n.children) + [Leave] + x)
    ensures |FlattenAll(n.children) + [Leave] + x| > 0 && !(FlattenAll(n.children) + [Leave] + x)[0].Attr?
  {
    NoAttrFirst(n.children);
    assert Flatten(n) + x == [Enter(n.name)] + (Attrs(n.props) + (FlattenAll(n.children) + [Leave] + x));
  }

  lemma NoAttrFirst(ns: seq<Node>)
    ensures ns != [] ==> |FlattenAll(ns)| > 0 && FlattenAll(ns)[0] == Enter(ns[0].name)
  {
    if ns != [] { assert Flatten(ns[0])[0] == Enter(ns[0].name); }
  }

  /** The number of properties a line begins with. */
  ghost function Run(es: seq<Event>): nat {
    if es == [] || !es[0].Attr? then 0 else 1 + Run(es[1..])
  }

  lemma {:induction false} RunOf(ps: seq<Property>, x: seq<Event>)
    requires x == [] || !x[0].Attr?
    ensures Run(Attrs(ps) + x) == |ps|
  {
    if ps == [] {
      assert Attrs(ps) + x == x;
    } else {
      assert (Attrs(ps) + x)[1..] == Attrs(ps[1..]) + x;
      RunOf(ps[1..], x);
    }
  }

  /** Properties end where something else begins. */
  lemma SameProps(ps: seq<Property>, qs: seq<Property>, x: seq<Event>, y: seq<Event>)
    requires Attrs(ps) + x == Attrs(qs) + y
    requires x != [] && !x[0].Attr? && y != [] && !y[0].Attr?
    ensures ps == qs && x == y
  {
    var s, t := Attrs(ps) + x, Attrs(qs) + y;
    RunOf(ps, x);
    RunOf(qs, y);
    forall i | 0 <= i < |ps|
      ensures ps[i] == qs[i]
    {
      assert s[i] == Attr(ps[i]) && t[i] == Attr(qs[i]);
    }
    assert x == s[|ps|..] && y == t[|qs|..];
  }

  lemma {:induction false} SameNode(m: Node, n: Node, x: seq<Event>, y: seq<Event>)
    requires Flatten(m) + x == Flatten(n) + y
    ensures m == n && x == y
    decreases m, 1
  {
    Head(m, x);
    Head(n, y);
    SameProps(m.props, n.props, FlattenAll(m.children) + [Leave] + x, FlattenAll(n.children) + [Leave] + y);
    assert FlattenAll(m.children) + [Leave] + x == FlattenAll(m.children) + ([Leave] + x);
    assert FlattenAll(n.children) + [Leave] + y == FlattenAll(n.children) + ([Leave] + y);
    SameNodes(m.children, n.children, [Leave] + x, [Leave] + y);
    assert x == ([Leave] + x)[1..] && y == ([Leave] + y)[1..];
  }

  lemma {:induction false} SameNodes(ms: seq<Node>, ns: seq<Node>, x: seq<Event>, y: seq<Event>)
    requires FlattenAll(ms) + x == FlattenAll(ns) + y
    requires x != [] && x[0].Leave? && y != [] && y[0].Leave?
    ensures ms == ns && x == y
    decreases ms, 0
  {
    hide *;
    FirstOfNodes(ms, x);
    FirstOfNodes(ns, y);
    if ms != [] {
      SameNode(ms[0], ns[0], FlattenAll(ms[1..]) + x, FlattenAll(ns[1..]) + y);
      SameNodes(ms[1..], ns[1..], x, y);
      assert ms == [ms[0]] + ms[1..] && ns == [ns[0]] + ns[1..];
    }
  }

  /** A line of nodes begins with the first node, or with what follows when there is none. */
  lemma FirstOfNodes(ns: seq<Node>, y: seq<Event>)
    requires y != [] && y[0].Leave?
    ensures FlattenAll(ns) + y != []
    ensures ns == [] ==> FlattenAll(ns) + y == y
    ensures ns != [] ==>
      (FlattenAll(ns) + y)[0].Enter? && FlattenAll(ns) + y == Flatten(ns[0]) + (FlattenAll(ns[1..]) + y)
  {
    hide *;
    FirstNode(ns);
    if ns == [] {
      EmptyFront(y);
    } else {
      FrontGroups(Flatten(ns[0]), FlattenAll(ns[1..]), y);
    }
  }

  lemma FirstNode(ns: seq<Node>)
    ensures ns == [] ==> FlattenAll(ns) == []
    ensures ns != [] ==>
      FlattenAll(ns) == Flatten(ns[0]) + FlattenAll(ns[1..]) && Flatten(ns[0]) != [] && Flatten(ns[0])[0].Enter?
  {}

  lemma EmptyFront(y: seq<Event>)
    ensures [] + y == y
  {}

  lemma FrontGroups(f: seq<Event>, r: seq<Event>, y: seq<Event>)
    ensures f + r + y == f + (r + y) && (f != [] ==> (f + r + y)[0] == f[0])
  {}

  /** Two trees with the same events are the same tree. */
  lemma FlattenInjective(m: Node, n: Node)
    requires Flatten(m) == Flatten(n)
    ensures m == n
  {
    assert Flatten(m) + [] == Flatten(n) + [];
    SameNode(m, n, [], []);
  }

  // ---------- places ----------

  type Path = seq<nat>

  ghost predicate HasPath(t: Node, p: Path)
    decreases p
  {
    p == [] || (p[0] < |t.children| && HasPath(t.children[p[0]], p[1..]))
  }

  ghost function At(t: Node, p: Path): Node
    requires HasPath(t, p)
    decreases p
  {
    if p == [] then t else At(t.children[p[0]], p[1..])
  }

  /** The tree with the node at p replaced. */
  ghost function Replace(t: Node, p: Path, n: Node): Node
    requires HasPath(t, p)
    decreases p
  {
    if p == [] then n else t.(children := t.children[p[0] := Replace(t.children[p[0]], p[1..], n)])
  }

  ghost function Before(t: Node, p: Path): seq<Event>
    requires HasPath(t, p)
    decreases p
  {
    if p == [] then []
    else [Enter(t.name)] + Attrs(t.props) + FlattenAll(t.children[..p[0]]) + Before(t.children[p[0]], p[1..])
  }

  ghost function After(t: Node, p: Path): seq<Event>
    requires HasPath(t, p)
    decreases p
  {
    if p == [] then []
    else After(t.children[p[0]], p[1..]) + FlattenAll(t.children[p[0] + 1..]) + [Leave]
  }

  /** The events around a place stay when the node there is replaced. */
  lemma {:induction false} Focus(t: Node, p: Path, n: Node)
    requires HasPath(t, p)
    ensures Flatten(t) == Before(t, p) + Flatten(At(t, p)) + After(t, p)
    ensures Flatten(Replace(t, p, n)) == Before(t, p) + Flatten(n) + After(t, p)
    decreases p
  {
    if p == [] {
      assert [] + Flatten(t) + [] == Flatten(t);
      assert [] + Flatten(n) + [] == Flatten(n);
    } else {
      var c, q := p[0], p[1..];
      Focus(t.children[c], q, n);
      FlattenAt(t.children, c);
      var u := t.children[c := Replace(t.children[c], q, n)];
      FlattenAt(u, c);
      assert u[..c] == t.children[..c] && u[c + 1..] == t.children[c + 1..];
      hide Flatten, FlattenAll, Before, After;
      FocusUp(t, p, n);
    }
  }

  lemma FocusUp(t: Node, p: Path, n: Node)
    requires p != [] && HasPath(t, p)
    requires
      var c, q := p[0], p[1..];
      var s := t.children[c];
      && Flatten(s) == Before(s, q) + Flatten(At(s, q)) + After(s, q)
      && Flatten(Replace(s, q, n)) == Before(s, q) + Flatten(n) + After(s, q)
      && FlattenAll(t.children) == FlattenAll(t.children[..c]) + Flatten(s) + FlattenAll(t.children[c + 1..])
      && FlattenAll(t.children[c := Replace(s, q, n)]) ==
        FlattenAll(t.children[..c]) + Flatten(Replace(s, q, n)) + FlattenAll(t.children[c + 1..])
    ensures Flatten(t) == Before(t, p) + Flatten(At(t, p)) + After(t, p)
    ensures Flatten(Replace(t, p, n)) == Before(t, p) + Flatten(n) + After(t, p)
  {
    var c, q := p[0], p[1..];
    var s := t.children[c];
    var h, l, r := [Enter(t.name)] + Attrs(t.props), FlattenAll(t.children[..c]), FlattenAll(t.children[c + 1..]);
    Glue(h, l, Before(s, q), Flatten(At(s, q)), After(s, q), r);
    Glue(h, l, Before(s, q), Flatten(n), After(s, q), r);
    hide Attrs, FlattenAll, At;
  }

  lemma Glue(h: seq<Event>, l: seq<Event>, b: seq<Event>, m: seq<Event>, a: seq<Event>, r: seq<Event>)
    ensures h + (l + (b + m + a) + r) + [Leave] == (h + l + b) + m + (a + r + [Leave])
  {}

  lemma {:induction false} ReplaceAt(t: Node, p: Path, n: Node)
    requires HasPath(t, p)
    ensures HasPath(Replace(t, p, n), p) && At(Replace(t, p, n), p) == n
    ensures Before(Replace(t, p, n), p) == Before(t, p) && After(Replace(t, p, n), p) == After(t, p)
    decreases p
  {
    if p != [] {
      var c, q := p[0], p[1..];
      ReplaceAt(t.children[c], q, n);
      var u := t.children[c := Replace(t.children[c], q, n)];
      assert u[..c] == t.children[..c] && u[c + 1..] == t.children[c + 1..];
    }
  }

  /** Replacing twice at one place is replacing once; replacing below is replacing with a changed node. */
  lemma {:induction false} ReplaceTwice(t: Node, p: Path, m: Node, n: Node)
    requires HasPath(t, p)
    ensures HasPath(Replace(t, p, m), p) && Replace(Replace(t, p, m), p, n) == Replace(t, p, n)
    decreases p
  {
    if p != [] {
      var c, q := p[0], p[1..];
      ReplaceTwice(t.children[c], q, m, n);
      var u, v := Replace(Replace(t, p, m), p, n), Replace(t, p, n);
      assert u.children == v.children;
    }
  }

  lemma {:induction false} ReplaceChild(t: Node, p: Path, c: nat, n: Node)
    requires HasPath(t, p) && c < |At(t, p).children|
    ensures HasPath(t, p + [c]) && At(t, p + [c]) == At(t, p).children[c]
    ensures Replace(t, p + [c], n) == Replace(t, p, At(t, p).(children := At(t, p).children[c := n]))
    ensures Before(t, p + [c]) ==
      Before(t, p) + ([Enter(At(t, p).name)] + Attrs(At(t, p).props) + FlattenAll(At(t, p).children[..c]))
    ensures After(t, p + [c]) == FlattenAll(At(t, p).children[c + 1..]) + [Leave] + After(t, p)
    decreases p
  {
    if p == [] {
      assert p + [c] == [c] && [c][1..] == [];
    } else {
      hide *;
      var d, q := p[0], p[1..];
      PathDown(t, p);
      assert (p + [c])[0] == d && (p + [c])[1..] == q + [c];
      ReplaceChild(t.children[d], q, c, n);
      var s, m := t.children[d], At(t.children[d], q);
      var h := [Enter(t.name)] + Attrs(t.props) + FlattenAll(t.children[..d]);
      DeeperPath(t, p, c);
      OneDown(t, p, n, At(t, p).(children := At(t, p).children[c := n]), c);
      GlueChild(h, Before(s, q), [Enter(m.name)] + Attrs(m.props) + FlattenAll(m.children[..c]));
      GlueBehind(FlattenAll(m.children[c + 1..]) + [Leave], After(s, q), FlattenAll(t.children[d + 1..]));
    }
  }

  lemma PathDown(t: Node, p: Path)
    requires HasPath(t, p) && p != []
    ensures p[0] < |t.children| && HasPath(t.children[p[0]], p[1..]) && At(t, p) == At(t.children[p[0]], p[1..])
  {}

  lemma DeeperPath(t: Node, p: Path, c: nat)
    requires p != [] && HasPath(t, p) && HasPath(t.children[p[0]], p[1..] + [c])
    ensures HasPath(t, p + [c]) && At(t, p) == At(t.children[p[0]], p[1..])
      && At(t, p + [c]) == At(t.children[p[0]], p[1..] + [c])
    ensures var s, q, h, r := t.children[p[0]], p[1..],
      [Enter(t.name)] + Attrs(t.props) + FlattenAll(t.children[..p[0]]), FlattenAll(t.children[p[0] + 1..]);
      && Before(t, p) == h + Before(s, q) && Before(t, p + [c]) == h + Before(s, q + [c])
      && After(t, p) == After(s, q) + r + [Leave] && After(t, p + [c]) == After(s, q + [c]) + r + [Leave]
  {
    hide Attrs, FlattenAll;
    assert (p + [c])[0] == p[0] && (p + [c])[1..] == p[1..] + [c];
  }

  lemma OneDown(t: Node, p: Path, n: Node, m: Node, c: nat)
    requires p != [] && HasPath(t, p) && HasPath(t.children[p[0]], p[1..] + [c]) && HasPath(t, p + [c])
    requires Replace(t.children[p[0]], p[1..] + [c], n) == Replace(t.children[p[0]], p[1..], m)
    ensures Replace(t, p + [c], n) == Replace(t, p, m)
  {
    assert (p + [c])[0] == p[0] && (p + [c])[1..] == p[1..] + [c];
  }

  lemma GlueBehind(f: seq<Event>, a: seq<Event>, r: seq<Event>)
    ensures f + a + r + [Leave] == f + (a + r + [Leave])
  {}

  lemma GlueChild(h: seq<Event>, b: seq<Event>, m: seq<Event>)
    ensures h + (b + m) == h + b + m
  {}
}
