/** The tokens of a structure block as a line of events, and nesting depth along the line. */
module DtEvents {
  import opened DtFormat
  import opened DtTree

  ghost function Ev(t: Token, strs: seq<Byte>): Event
    requires !t.Nop? && (t.Prop? ==> HasString(strs, t.nameoff))
  {
    match t
    case BeginNode(name, _) => Enter(name)
    case EndNode => Leave
    case Prop(nameoff, value, _) => Attr(Property(StringAt(strs, nameoff), value))
  }

  ghost function Events(ts: seq<Token>, strs: seq<Byte>): seq<Event>
    requires NamesOk(ts, strs)
  {
    if ts == [] then [] else (if ts[0].Nop? then [] else [Ev(ts[0], strs)]) + Events(ts[1..], strs)
  }

  lemma NamesOkParts(a: seq<Token>, b: seq<Token>, strs: seq<Byte>)
    ensures NamesOk(a + b, strs) <==> NamesOk(a, strs) && NamesOk(b, strs)
  {
    if NamesOk(a + b, strs) {
      forall t | t in a && t.Prop?
        ensures HasString(strs, t.nameoff)
      {
        assert t in a + b;
      }
      forall t | t in b && t.Prop?
        ensures HasString(strs, t.nameoff)
      {
        assert t in a + b;
      }
    }
  }

  lemma {:induction false} EventsConcat(a: seq<Token>, b: seq<Token>, strs: seq<Byte>)
    requires NamesOk(a, strs) && NamesOk(b, strs)
    ensures NamesOk(a + b, strs) && Events(a + b, strs) == Events(a, strs) + Events(b, strs)
  {
    NamesOkParts(a, b, strs);
    if a == [] {
      assert a + b == b;
    } else {
      assert (a + b)[1..] == a[1..] + b;
      EventsConcat(a[1..], b, strs);
    }
  }

  /** Adding strings changes nothing that was said. */
  lemma {:induction false} EventsMore(ts: seq<Token>, strs: seq<Byte>, more: seq<Byte>)
    requires NamesOk(ts, strs)
    ensures NamesOk(ts, strs + more) && Events(ts, strs + more) == Events(ts, strs)
  {
    forall t | t in ts && t.Prop?
      ensures HasString(strs + more, t.nameoff)
    {
      MoreStrings(strs, more, t.nameoff);
    }
    if ts != [] {
      EventsMore(ts[1..], strs, more);
      if ts[0].Prop? { MoreStrings(strs, more, ts[0].nameoff); }
    }
  }

  lemma EventsOne(t: Token, strs: seq<Byte>)
    requires NamesOk([t], strs)
    ensures Events([t], strs) == if t.Nop? then [] else [Ev(t, strs)]
  {
    assert [t][1..] == [];
  }

  // ---------- the token of an event ----------

  /** The token that carries event i; fillers in front of it are passed over. */
  ghost function Tok(ts: seq<Token>, i: nat): (j: nat)
    ensures j <= |ts|
  {
    if ts == [] then 0
    else if ts[0].Nop? then 1 + Tok(ts[1..], i)
    else if i == 0 then 0
    else 1 + Tok(ts[1..], i - 1)
  }

  lemma {:induction false} TokAt(ts: seq<Token>, strs: seq<Byte>, i: nat)
    requires NamesOk(ts, strs) && i < |Events(ts, strs)|
    ensures Tok(ts, i) < |ts| && !ts[Tok(ts, i)].Nop?
    ensures NamesOk(ts[..Tok(ts, i)], strs) && NamesOk(ts[Tok(ts, i) + 1..], strs)
    ensures Events(ts, strs)[i] == Ev(ts[Tok(ts, i)], strs)
    ensures Events(ts[..Tok(ts, i)], strs) == Events(ts, strs)[..i]
    ensures Events(ts[Tok(ts, i) + 1..], strs) == Events(ts, strs)[i + 1..]
  {
    hide *;
    var j := Tok(ts, i);
    TokDef(ts, strs, i);
    if !ts[0].Nop? && i == 0 {
      TokFirst(ts, strs);
    } else {
      var i1 := if ts[0].Nop? then i else i - 1;
      NamesOkTail(ts, strs);
      TokAt(ts[1..], strs, i1);
      TokBack(ts, strs, j);
    }
  }

  lemma TokDef(ts: seq<Token>, strs: seq<Byte>, i: nat)
    requires NamesOk(ts, strs) && i < |Events(ts, strs)|
    ensures ts != [] && (ts[0].Prop? ==> HasString(strs, ts[0].nameoff))
    ensures Tok(ts, i) == if !ts[0].Nop? && i == 0 then 0 else 1 + Tok(ts[1..], if ts[0].Nop? then i else i - 1)
  {}

  lemma NamesOkTail(ts: seq<Token>, strs: seq<Byte>)
    requires NamesOk(ts, strs) && ts != []
    ensures NamesOk(ts[1..], strs)
    ensures Events(ts, strs) == (if ts[0].Nop? then [] else [Ev(ts[0], strs)]) + Events(ts[1..], strs)
  {}

  lemma TokFirst(ts: seq<Token>, strs: seq<Byte>)
    requires NamesOk(ts, strs) && ts != [] && !ts[0].Nop?
    ensures NamesOk(ts[..0], strs) && NamesOk(ts[1..], strs) && Events(ts[..0], strs) == []
    ensures Events(ts, strs) == [Ev(ts[0], strs)] + Events(ts[1..], strs)
  {
    assert ts[..0] == [];
  }

  lemma TokBack(ts: seq<Token>, strs: seq<Byte>, j: nat)
    requires NamesOk(ts, strs) && 0 < j < |ts|
    ensures NamesOk(ts[..j], strs) && NamesOk(ts[j + 1..], strs) && NamesOk(ts[1..][..j - 1], strs)
    ensures Events(ts[..j], strs) == (if ts[0].Nop? then [] else [Ev(ts[0], strs)]) + Events(ts[1..][..j - 1], strs)
    ensures ts[j + 1..] == ts[1..][j..] && ts[j] == ts[1..][j - 1]
  {
    assert ts[..j] == [ts[0]] + ts[1..][..j - 1];
    assert ts[..j][1..] == ts[1..][..j - 1];
  }

  /** A token that is not a filler carries the event counted by those before it. */
  lemma {:induction false} TokOf(ts: seq<Token>, strs: seq<Byte>, j: nat)
    requires NamesOk(ts, strs) && j < |ts| && !ts[j].Nop?
    ensures NamesOk(ts[..j], strs)
    ensures |Events(ts[..j], strs)| < |Events(ts, strs)| && Tok(ts, |Events(ts[..j], strs)|) == j
  {
    if j == 0 {
      assert ts[..0] == [];
    } else {
      TokOf(ts[1..], strs, j - 1);
      assert ts[..j] == [ts[0]] + ts[1..][..j - 1];
      assert ts[..j][1..] == ts[1..][..j - 1];
      NamesOkParts([ts[0]], ts[1..][..j - 1], strs);
    }
  }

  /** Where event i begins in the structure block. */
  ghost function EvOff(ts: seq<Token>, i: nat): nat
    requires AllWf(ts)
  {
    Off(ts, Tok(ts, i))
  }

  /** Where the token behind event i begins. */
  ghost function EvEnd(ts: seq<Token>, i: nat): nat
    requires AllWf(ts)
  {
    if Tok(ts, i) < |ts| then Off(ts, Tok(ts, i) + 1) else 0
  }

  /** One token further, the count of events grows by one unless it is a filler. */
  lemma CountStep(ts: seq<Token>, strs: seq<Byte>, j: nat)
    requires NamesOk(ts, strs) && j < |ts|
    ensures NamesOk(ts[..j], strs) && NamesOk(ts[..j + 1], strs)
    ensures |Events(ts[..j + 1], strs)| == |Events(ts[..j], strs)| + if ts[j].Nop? then 0 else 1
  {
    assert ts == ts[..j] + ts[j..] && ts == ts[..j + 1] + ts[j + 1..];
    NamesOkParts(ts[..j], ts[j..], strs);
    NamesOkParts(ts[..j + 1], ts[j + 1..], strs);
    assert ts[..j + 1] == ts[..j] + [ts[j]];
    NamesOkParts(ts[..j], [ts[j]], strs);
    EventsConcat(ts[..j], [ts[j]], strs);
    EventsOne(ts[j], strs);
  }

  // ---------- depth ----------

  function Delta(e: Event): int {
    if e.Enter? then 1 else if e.Leave? then -1 else 0
  }

  /** Nodes entered and not yet left after the first x events. */
  ghost function Level(es: seq<Event>, x: nat): int
    requires x <= |es|
  {
    if x == 0 then 0 else Level(es, x - 1) + Delta(es[x - 1])
  }

  lemma {:induction false} LevelShift(pre: seq<Event>, es: seq<Event>, x: nat)
    requires x <= |es|
    ensures Level(pre + es, |pre| + x) == Level(pre, |pre|) + Level(es, x)
  {
    if x == 0 {
      LevelPrefix(pre, es, |pre|);
    } else {
      LevelShift(pre, es, x - 1);
      assert (pre + es)[|pre| + x - 1] == es[x - 1];
    }
  }

  lemma {:induction false} LevelPrefix(es: seq<Event>, more: seq<Event>, x: nat)
    requires x <= |es|
    ensures Level(es + more, x) == Level(es, x)
  {
    if x > 0 {
      LevelPrefix(es, more, x - 1);
      assert (es + more)[x - 1] == es[x - 1];
    }
  }

  lemma {:induction false} AttrsFlat(ps: seq<Property>, x: nat)
    requires x <= |ps|
    ensures Level(Attrs(ps), x) == 0
  {
    if x > 0 { AttrsFlat(ps, x - 1); }
  }

  /** Inside a node the level is above that of its start, and comes back to it at its end. */
  lemma {:induction false} NodeLevel(n: Node, x: nat)
    requires x <= |Flatten(n)|
    ensures Level(Flatten(n), x) >= if 0 < x < |Flatten(n)| then 1 else 0
    ensures x == |Flatten(n)| ==> Level(Flatten(n), x) == 0
    decreases n, 1
  {
    var h, b := [Enter(n.name)] + Attrs(n.props), FlattenAll(n.children);
    assert Flatten(n) == h + b + [Leave] == h + (b + [Leave]);
    forall y: nat | 0 < y <= |h|
      ensures Level(Flatten(n), y) == 1
    {
      HeadLevel(n, y);
      LevelPrefix(h, b + [Leave], y);
    }
    if x > |h| {
      var y := x - |h|;
      LevelShift(h, b + [Leave], y);
      HeadLevel(n, |h|);
      if y <= |b| {
        NodesLevel(n.children, y);
        LevelPrefix(b, [Leave], y);
      } else {
        NodesLevel(n.children, |b|);
        LevelPrefix(b, [Leave], |b|);
        assert (b + [Leave])[y - 1] == Leave;
      }
    }
  }

  lemma HeadLevel(n: Node, y: nat)
    requires 0 < y <= 1 + |n.props|
    ensures Level([Enter(n.name)] + Attrs(n.props), y) == 1
  {
    LevelShift([Enter(n.name)], Attrs(n.props), y - 1);
    AttrsFlat(n.props, y - 1);
    assert Level([Enter(n.name)], 1) == Level([Enter(n.name)], 0) + 1;
  }

  lemma {:induction false} NodesLevel(ns: seq<Node>, x: nat)
    requires x <= |FlattenAll(ns)|
    ensures Level(FlattenAll(ns), x) >= 0
    ensures x == |FlattenAll(ns)| ==> Level(FlattenAll(ns), x) == 0
    decreases ns, 0
  {
    if ns != [] {
      var f, r := Flatten(ns[0]), FlattenAll(ns[1..]);
      if x <= |f| {
        NodeLevel(ns[0], x);
        LevelPrefix(f, r, x);
        if x == |f| == |f + r| { NodeLevel(ns[0], |f|); }
      } else {
        NodeLevel(ns[0], |f|);
        NodesLevel(ns[1..], x - |f|);
        LevelShift(f, r, x - |f|);
      }
    }
  }

  /** Where the events of child c begin, counted from the start of the node. */
  ghost function ChildPos(n: Node, c: nat): nat
    requires c <= |n.children|
  {
    1 + |n.props| + |FlattenAll(n.children[..c])|
  }

  /** Children begin at level one, and nothing else that is entered does. */
  lemma {:induction false} TopOfNodes(ns: seq<Node>, x: nat)
    requires x < |FlattenAll(ns)| && FlattenAll(ns)[x].Enter? && Level(FlattenAll(ns), x) == 0
    ensures exists c :: 0 <= c < |ns| && x == |FlattenAll(ns[..c])|
    decreases ns
  {
    var f, r := Flatten(ns[0]), FlattenAll(ns[1..]);
    if x == 0 {
      assert ns[..0] == [];
      assert x == |FlattenAll(ns[..0])|;
    } else if x < |f| {
      NodeLevel(ns[0], x);
      LevelPrefix(f, r, x);
    } else {
      NodeLevel(ns[0], |f|);
      LevelShift(f, r, x - |f|);
      TopOfNodes(ns[1..], x - |f|);
      var c :| 0 <= c < |ns[1..]| && x - |f| == |FlattenAll(ns[1..][..c])|;
      assert ns[..c + 1] == [ns[0]] + ns[1..][..c];
      FlattenConcat([ns[0]], ns[1..][..c]);
      FlattenOne(ns[0]);
      assert x == |FlattenAll(ns[..c + 1])|;
    }
  }

  lemma ChildAt(n: Node, c: nat)
    requires c < |n.children|
    ensures ChildPos(n, c) < |Flatten(n)| && Flatten(n)[ChildPos(n, c)] == Enter(n.children[c].name)
    ensures Level(Flatten(n), ChildPos(n, c)) == 1
    ensures ChildPos(n, c) + |Flatten(n.children[c])| < |Flatten(n)|
    ensures Flatten(n)[ChildPos(n, c)..ChildPos(n, c) + |Flatten(n.children[c])|] == Flatten(n.children[c])
  {
    var h, l, m, r := [Enter(n.name)] + Attrs(n.props), FlattenAll(n.children[..c]), Flatten(n.children[c]),
      FlattenAll(n.children[c + 1..]);
    ChildSplit(n, c);
    hide *;
    HeadLevel(n, 1 + |n.props|);
    NodesLevel(n.children[..c], |l|);
    MiddleAt(Flatten(n), h, l, m, r, ChildPos(n, c));
  }

  lemma MiddleAt(s: seq<Event>, h: seq<Event>, l: seq<Event>, m: seq<Event>, r: seq<Event>, x: nat)
    requires s == h + (l + m + r) + [Leave] && x == |h + l| && |m| > 0
    requires Level(h, |h|) == 1 && Level(l, |l|) == 0
    ensures x + |m| < |s| && s[x] == m[0] && s[x..x + |m|] == m && Level(s, x) == 1
  {
    hide *;
    Regrouped(h, l, m, r);
    LevelShift(h, l, |l|);
    LevelPrefix(h + l, m + (r + [Leave]), x);
    FrontPart(h + l, m, r + [Leave], x);
  }

  lemma Regrouped(h: seq<Event>, l: seq<Event>, m: seq<Event>, r: seq<Event>)
    ensures h + (l + m + r) + [Leave] == (h + l) + (m + (r + [Leave]))
    ensures |h| + |l| == |h + l|
  {}

  lemma FrontPart(a: seq<Event>, m: seq<Event>, e: seq<Event>, x: nat)
    requires |m| > 0 && |e| > 0 && x == |a|
    ensures var s := a + (m + e); x + |m| < |s| && s[x] == m[0] && s[x..x + |m|] == m
  {}

  lemma ChildSplit(n: Node, c: nat)
    requires c < |n.children|
    ensures
      var h, l, m, r := [Enter(n.name)] + Attrs(n.props), FlattenAll(n.children[..c]), Flatten(n.children[c]),
        FlattenAll(n.children[c + 1..]);
      && |h| == 1 + |n.props| && ChildPos(n, c) == |h + l| && |m| > 0 && m[0] == Enter(n.children[c].name)
      && Flatten(n) == h + (l + m + r) + [Leave]
  {
    FlattenAt(n.children, c);
  }

  lemma AtChild(n: Node, x: nat)
    requires 0 < x < |Flatten(n)| && Flatten(n)[x].Enter? && Level(Flatten(n), x) == 1
    ensures exists c :: 0 <= c < |n.children| && x == ChildPos(n, c)
  {
    var h, b := [Enter(n.name)] + Attrs(n.props), FlattenAll(n.children);
    assert Flatten(n) == h + (b + [Leave]);
    assert x >= |h|;
    var y := x - |h|;
    assert (b + [Leave])[y] == Flatten(n)[x];
    LevelShift(h, b + [Leave], y);
    HeadLevel(n, |h|);
    LevelPrefix(b, [Leave], y);
    TopOfNodes(n.children, y);
    var c :| 0 <= c < |n.children| && y == |FlattenAll(n.children[..c])|;
    assert x == ChildPos(n, c);
  }
}
