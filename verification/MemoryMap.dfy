/** The E820 memory map: sorting and merging of its entries, and the hand-over to the allocator. */
module MemoryMap {
  import opened AddressRanges
  import Sorting

  type U32 = x: int | 0 <= x < 0x1_0000_0000

  const AVAILABLE: U32 := 1
  const BOOTLOADER: U32 := 0xffff_ffff
  const PAGE_SIZE: U64 := 0x1000

  datatype Entry = Entry(base: U64, len: U64, kind: U32, attributes: U32) {
    function End(): int {
      base + len
    }
  }

  function BaseOf(e: Entry): int {
    e.base
  }

  function Compare(a: Entry, b: Entry): int {
    if a.base < b.base then -1 else if a.base > b.base then 1 else 0
  }

  // ---------- what a map says ----------

  /** Address x is reported with this type and these attributes. */
  ghost predicate Describes(s: seq<Entry>, x: int, kind: U32, attributes: U32) {
    exists e :: e in s && InRange(x, e.base, e.len) && e.kind == kind && e.attributes == attributes
  }

  ghost predicate SameMap(s: seq<Entry>, t: seq<Entry>) {
    forall x: int, k, at :: Describes(s, x, k, at) <==> Describes(t, x, k, at)
  }

  ghost predicate Apart(a: Entry, b: Entry) {
    a.End() <= b.base || b.End() <= a.base
  }

  /** Non-empty entries inside the address space that share no address. */
  ghost predicate Disjoint(s: seq<Entry>) {
    && (forall e :: e in s ==> InSpace(e.base, e.len))
    && (forall i, j :: 0 <= i < j < |s| ==> Apart(s[i], s[j]))
  }

  /** Disjoint entries in increasing order. */
  ghost predicate Orderly(s: seq<Entry>) {
    && (forall i :: 0 <= i < |s| ==> InSpace(s[i].base, s[i].len))
    && (forall i, j :: 0 <= i < j < |s| ==> s[i].End() <= s[j].base)
  }

  /** Two entries that say the same of neighbouring memory. */
  predicate Joins(a: Entry, b: Entry) {
    a.kind == b.kind && a.attributes == b.attributes && IsMergeable(a.base, a.len, b.base, b.len)
  }

  /** Every address is reported, always with the same type and attributes. */
  ghost predicate Uniform(s: seq<Entry>) {
    exists k, at :: Everywhere(s, k, at)
  }

  ghost predicate Everywhere(s: seq<Entry>, kind: U32, attributes: U32) {
    forall x: int :: 0 <= x < SPACE ==> Describes(s, x, kind, attributes)
  }

  lemma SortedIsOrderly(s: seq<Entry>, t: seq<Entry>)
    requires Disjoint(s) && multiset(s) == multiset(t)
    requires Sorting.SortedBy(t, BaseOf)
    ensures Orderly(t) && SameMap(s, t)
  {
    forall i | 0 <= i < |t|
      ensures InSpace(t[i].base, t[i].len)
    {
      assert t[i] in multiset(t);
    }
    forall i, j | 0 <= i < j < |t|
      ensures t[i].End() <= t[j].base
    {
      RearrangedApart(s, t, i, j);
      assert BaseOf(t[i]) <= BaseOf(t[j]);
    }
    assert forall e :: e in s <==> e in multiset(s);
    assert forall e :: e in t <==> e in multiset(t);
  }

  lemma RearrangedApart(s: seq<Entry>, t: seq<Entry>, i: nat, j: nat)
    requires Disjoint(s) && multiset(s) == multiset(t) && i < j < |t|
    ensures Apart(t[i], t[j])
  {
    hide Apart;
    if t[i] == t[j] {
      TwiceCounted(t, i, j);
      var a, c := TwoOccurrences(s, t[i]);
      assert Apart(s[a], s[c]);
    } else {
      assert t[i] in multiset(t) && t[j] in multiset(t);
      var a := Occurrence(s, t[i]);
      var b := Occurrence(s, t[j]);
      assert Apart(s[if a < b then a else b], s[if a < b then b else a]);
      ApartEitherWay(s[a], s[b]);
    }
  }

  lemma ApartEitherWay(e: Entry, f: Entry)
    ensures Apart(e, f) <==> Apart(f, e)
  {}

  lemma TwiceCounted(t: seq<Entry>, i: nat, j: nat)
    requires i < j < |t| && t[i] == t[j]
    ensures multiset(t)[t[i]] >= 2
  {
    assert t == t[..i] + [t[i]] + t[i + 1..j] + [t[j]] + t[j + 1..];
  }

  lemma TwoOccurrences(s: seq<Entry>, e: Entry) returns (a: nat, c: nat)
    requires multiset(s)[e] >= 2
    ensures a < c < |s| && s[a] == s[c] == e
  {
    a := Occurrence(s, e);
    assert s == s[..a] + [s[a]] + s[a + 1..];
    if multiset(s[..a])[e] >= 1 {
      c := Occurrence(s[..a], e);
      a, c := c, a;
    } else {
      c := Occurrence(s[a + 1..], e);
      c := a + 1 + c;
    }
  }

  lemma Occurrence(s: seq<Entry>, e: Entry) returns (i: nat)
    requires multiset(s)[e] > 0
    ensures i < |s| && s[i] == e
  {
    assert e in s;
    i :| 0 <= i < |s| && s[i] == e;
  }

  // ---------- merging ----------

  /** The entries i to i + n each continue the one before. */
  ghost predicate Chain(s: seq<Entry>, i: nat, n: nat)
    requires i + n < |s|
  {
    forall j :: i <= j < i + n ==> Joins(s[j], s[j + 1])
  }

  ghost predicate InEntries(s: seq<Entry>, i: nat, n: nat, x: int)
    requires i + n < |s|
  {
    exists j :: i <= j <= i + n && InRange(x, s[j].base, s[j].len)
  }

  /** From the base of the first to the end of the last, in 64 bits. */
  function FusedEntry(first: Entry, last: Entry): Entry {
    Entry(first.base, Wrap(last.End() - first.base), first.kind, first.attributes)
  }

  ghost function Fused(s: seq<Entry>, i: nat, n: nat): seq<Entry>
    requires i + n < |s|
  {
    s[..i] + [FusedEntry(s[i], s[i + n])] + s[i + n + 1..]
  }

  lemma {:induction false} ChainIsUniform(s: seq<Entry>, i: nat, n: nat)
    requires Orderly(s) && i + n < |s| && Chain(s, i, n)
    ensures forall j :: i <= j <= i + n ==> s[j].kind == s[i].kind && s[j].attributes == s[i].attributes
    ensures forall x: int :: s[i].base <= x < s[i + n].End() <==> InEntries(s, i, n, x)
    decreases n
  {
    if n == 0 {
      forall x: int
        ensures s[i].base <= x < s[i + n].End() <==> InEntries(s, i, n, x)
      {
        if s[i].base <= x < s[i].End() { assert InRange(x, s[i].base, s[i].len); }
      }
    } else {
      ChainIsUniform(s, i, n - 1);
      var l := i + n - 1;
      assert Joins(s[l], s[l + 1]);
      assert s[l].End() == s[l + 1].base;
      forall x: int
        ensures s[i].base <= x < s[i + n].End() <==> InEntries(s, i, n, x)
      {
        if s[i].base <= x < s[l].End() {
          assert InEntries(s, i, n - 1, x);
          var j :| i <= j <= i + n - 1 && InRange(x, s[j].base, s[j].len);
        } else if s[l + 1].base <= x < s[l + 1].End() {
          assert InRange(x, s[l + 1].base, s[l + 1].len);
        }
      }
    }
  }

  lemma FusedAt(s: seq<Entry>, i: nat, n: nat)
    requires i + n < |s|
    ensures |Fused(s, i, n)| == |s| - n
    ensures forall j :: 0 <= j < |s| - n && j != i ==> Fused(s, i, n)[j] == s[if j < i then j else j + n]
    ensures Fused(s, i, n)[i] == FusedEntry(s[i], s[i + n])
  {}

  /** Fusing a chain that does not fill the address space leaves the map as it was. */
  lemma FusedKeeps(s: seq<Entry>, i: nat, n: nat)
    requires Orderly(s) && i + n < |s| && Chain(s, i, n)
    requires s[i].base > 0 || s[i + n].End() < SPACE
    ensures Orderly(Fused(s, i, n)) && SameMap(s, Fused(s, i, n))
  {
    var t := Fused(s, i, n);
    FusedOrderly(s, i, n);
    ChainIsUniform(s, i, n);
    FusedAt(s, i, n);
    hide Fused, Chain, Orderly, Describes, InEntries;
    forall x: int, k, at
      ensures Describes(s, x, k, at) <==> Describes(t, x, k, at)
    {
      FusedDescribes(s, t, i, n, x, k, at);
    }
  }

  lemma FusedOrderly(s: seq<Entry>, i: nat, n: nat)
    requires Orderly(s) && i + n < |s| && (s[i].base > 0 || s[i + n].End() < SPACE)
    ensures Orderly(Fused(s, i, n)) && |Fused(s, i, n)| > i && Fused(s, i, n)[i].End() == s[i + n].End()
  {
    FusedAt(s, i, n);
    hide Fused;
    assert n > 0 ==> s[i].End() <= s[i + n].base;
    assert Fused(s, i, n)[i].End() == s[i + n].End();
  }

  lemma FusedDescribes(s: seq<Entry>, t: seq<Entry>, i: nat, n: nat, x: int, k: U32, at: U32)
    requires i + n < |s| && |t| == |s| - n
    requires forall j :: 0 <= j < |s| - n && j != i ==> t[j] == s[if j < i then j else j + n]
    requires t[i].base == s[i].base && t[i].End() == s[i + n].End()
    requires t[i].kind == s[i].kind && t[i].attributes == s[i].attributes
    requires forall j :: i <= j <= i + n ==> s[j].kind == s[i].kind && s[j].attributes == s[i].attributes
    requires s[i].base <= x < s[i + n].End() <==> InEntries(s, i, n, x)
    ensures Describes(s, x, k, at) <==> Describes(t, x, k, at)
  {
    if Describes(s, x, k, at) {
      var e :| e in s && InRange(x, e.base, e.len) && e.kind == k && e.attributes == at;
      var j :| 0 <= j < |s| && s[j] == e;
      if j < i {
        assert t[j] == e;
      } else if j > i + n {
        assert t[j - n] == e;
      } else {
        assert t[i] in t;
      }
    }
    if Describes(t, x, k, at) {
      var e :| e in t && InRange(x, e.base, e.len) && e.kind == k && e.attributes == at;
      var j :| 0 <= j < |t| && t[j] == e;
      if j == i {
        assert InEntries(s, i, n, x);
        var l :| i <= l <= i + n && InRange(x, s[l].base, s[l].len);
        assert s[l] in s;
      } else {
        assert s[if j < i then j else j + n] in s;
      }
    }
  }

  lemma InOrder(s: seq<Entry>, i: nat, j: nat)
    requires Orderly(s) && i < |s| && j < |s|
    ensures InSpace(s[i].base, s[i].len) && InSpace(s[j].base, s[j].len)
    ensures i < j ==> s[i].End() <= s[j].base
  {}

  /** An address has one entry. */
  lemma OneEntry(s: seq<Entry>, x: int, i: nat, j: nat)
    requires Orderly(s) && i < |s| && j < |s| && InRange(x, s[i].base, s[i].len) && InRange(x, s[j].base, s[j].len)
    ensures i == j
  {}

  lemma DescribedBy(s: seq<Entry>, k: U32, at: U32, x: int) returns (i: nat)
    requires Describes(s, x, k, at)
    ensures i < |s| && InRange(x, s[i].base, s[i].len) && s[i].kind == k && s[i].attributes == at
  {
    var e :| e in s && InRange(x, e.base, e.len) && e.kind == k && e.attributes == at;
    i :| 0 <= i < |s| && s[i] == e;
  }

  /** A map that says the same of every address is one chain from end to end. */
  lemma UniformIsChain(s: seq<Entry>)
    requires Orderly(s) && Uniform(s)
    ensures |s| > 1 && s[0].base == 0 && s[|s| - 1].End() == SPACE && Chain(s, 0, |s| - 1)
  {
    var k, at :| Everywhere(s, k, at);
    var first := DescribedBy(s, k, at, 0);
    InOrder(s, 0, first);
    var last := DescribedBy(s, k, at, SPACE - 1);
    InOrder(s, last, |s| - 1);
    forall j | 0 <= j < |s| - 1
      ensures Joins(s[j], s[j + 1])
    {
      assert s[j].End() <= s[j + 1].base;
      var a := DescribedBy(s, k, at, s[j].base);
      OneEntry(s, s[j].base, a, j);
      var b := DescribedBy(s, k, at, s[j].End());
      InOrder(s, b, j);
      InOrder(s, j + 1, b);
      assert b != j;
    }
  }

  lemma ChainIsWhole(s: seq<Entry>, i: nat, n: nat)
    requires Orderly(s) && i + n < |s| && Chain(s, i, n)
    requires s[i].base == 0 && s[i + n].End() == SPACE
    ensures Uniform(s) && i == 0 && n == |s| - 1
    ensures Fused(s, i, n) == [Entry(0, 0, s[0].kind, s[0].attributes)]
  {
    InOrder(s, 0, i);
    InOrder(s, i + n, |s| - 1);
    ChainIsUniform(s, i, n);
    forall x: int | 0 <= x < SPACE
      ensures Describes(s, x, s[0].kind, s[0].attributes)
    {
      assert InEntries(s, i, n, x);
      var j :| i <= j <= i + n && InRange(x, s[j].base, s[j].len);
      assert s[j] in s;
    }
    assert Everywhere(s, s[0].kind, s[0].attributes);
  }

  lemma SameUniform(s: seq<Entry>, t: seq<Entry>)
    requires SameMap(s, t)
    ensures Uniform(s) <==> Uniform(t)
  {
    if Uniform(s) {
      var k, at :| Everywhere(s, k, at);
      assert Everywhere(t, k, at);
    }
    if Uniform(t) {
      var k, at :| Everywhere(t, k, at);
      assert Everywhere(s, k, at);
    }
  }

  /** The state of the merge loop: everything before idx is settled; a uniform map collapses at the first step. */
  ghost predicate Merging(s: seq<Entry>, t: seq<Entry>, idx: nat) {
    if Uniform(s) && idx > 0 then
      |t| == 1 && t[0].base == 0 && t[0].len == 0
    else
      && Orderly(t) && SameMap(s, t)
      && forall j :: 0 <= j < idx && j + 1 < |t| ==> !Joins(t[j], t[j + 1])
  }

  lemma MergeStep(s: seq<Entry>, t: seq<Entry>, idx: nat, n: nat)
    requires Merging(s, t, idx) && idx + n < |t| && idx + 1 < |t|
    requires Chain(t, idx, n) && (idx + n + 1 < |t| ==> !Joins(t[idx + n], t[idx + n + 1]))
    ensures Merging(s, Fused(t, idx, n), idx + 1)
  {
    assert Orderly(t) && SameMap(s, t);
    SameUniform(s, t);
    if Uniform(s) { WholeStep(t, idx, n); }
    FusedAt(t, idx, n);
    if t[idx].base == 0 && t[idx + n].End() == SPACE {
      ChainIsWhole(t, idx, n);
    } else {
      FusedKeeps(t, idx, n);
      FusedSettles(t, idx, n);
    }
  }

  /** In a uniform map the chain found at the first entry is the whole map. */
  lemma WholeStep(t: seq<Entry>, idx: nat, n: nat)
    requires Orderly(t) && Uniform(t) && idx == 0 && idx + n < |t|
    requires idx + n + 1 < |t| ==> !Joins(t[idx + n], t[idx + n + 1])
    ensures t[idx].base == 0 && t[idx + n].End() == SPACE
  {
    UniformIsChain(t);
  }

  lemma FusedSettles(t: seq<Entry>, idx: nat, n: nat)
    requires Orderly(t) && idx + n < |t| && Chain(t, idx, n)
    requires t[idx].base > 0 || t[idx + n].End() < SPACE
    requires forall j :: 0 <= j < idx && j + 1 < |t| ==> !Joins(t[j], t[j + 1])
    requires idx + n + 1 < |t| ==> !Joins(t[idx + n], t[idx + n + 1])
    ensures var u := Fused(t, idx, n); forall j :: 0 <= j < idx + 1 && j + 1 < |u| ==> !Joins(u[j], u[j + 1])
  {
    var u := Fused(t, idx, n);
    FusedAt(t, idx, n);
    FusedKeeps(t, idx, n);
    ChainIsUniform(t, idx, n);
    hide Fused, Chain, SameMap;
    forall j | 0 <= j < idx + 1 && j + 1 < |u|
      ensures !Joins(u[j], u[j + 1])
    {
      if j == idx {
        assert u[j + 1] == t[idx + n + 1] && u[j].End() == t[idx + n].End();
      } else if j == idx - 1 {
        assert u[j] == t[j] && !Joins(t[j], t[j + 1]);
        assert t[j].End() <= t[j + 1].base;
      } else {
        assert !Joins(t[j], t[j + 1]);
      }
    }
  }

  /** No two neighbours could still be merged. */
  ghost predicate Settled(s: seq<Entry>) {
    forall j :: 0 <= j < |s| - 1 ==> !Joins(s[j], s[j + 1])
  }

  // ---------- the merged map ----------

  /** How many entries behind the first continue it, one after the other. */
  ghost function RunLength(t: seq<Entry>): (k: nat)
    requires t != []
    ensures k < |t|
  {
    if |t| == 1 || !Joins(t[0], t[1]) then 0 else 1 + RunLength(t[1..])
  }

  /** Every run of entries that continue one another becomes one entry, which ends where the last of them does. */
  ghost function MergedMap(t: seq<Entry>): seq<Entry> {
    if |t| <= 1 then t else [FusedEntry(t[0], t[RunLength(t)])] + MergedMap(t[RunLength(t) + 1..])
  }

  lemma {:induction false} RunLengthIs(t: seq<Entry>, i: nat, k: nat)
    requires i + k < |t|
    ensures RunLength(t[i..]) == k <==> Chain(t, i, k) && (i + k + 1 < |t| ==> !Joins(t[i + k], t[i + k + 1]))
    decreases k
  {
    var u := t[i..];
    assert u[0] == t[i] && (|u| > 1 ==> u[1] == t[i + 1]);
    if k > 0 {
      assert u[1..] == t[i + 1..];
      RunLengthIs(t, i + 1, k - 1);
      if Chain(t, i, k) { assert Joins(t[i], t[i + 1]); }
    } else if |u| > 1 {
      assert u[1..] == t[i + 1..];
    }
  }

  lemma FusedParts(s: seq<Entry>, i: nat, n: nat)
    requires i + n < |s|
    ensures var f := Fused(s, i, n);
      |f| == |s| - n && f[..i] == s[..i] && f[..i + 1] == s[..i] + [FusedEntry(s[i], s[i + n])]
        && f[i + 1..] == s[i + n + 1..]
  {
    hide FusedEntry;
  }

  /** What one turn of the loop leaves to do. */
  lemma MergedTurn(t: seq<Entry>, idx: nat, k: nat)
    requires idx + 1 < |t| && k == RunLength(t[idx..])
    ensures idx + k < |t| && idx < |t| - k
    ensures var u := Fused(t, idx, k);
      |u| == |t| - k && t[..idx] + MergedMap(t[idx..]) == u[..idx + 1] + MergedMap(u[idx + 1..])
  {
    hide FusedEntry, Fused, RunLength;
    var r, e := t[idx..], FusedEntry(t[idx], t[idx + k]);
    FusedParts(t, idx, k);
    assert r[0] == t[idx] && r[k] == t[idx + k] && r[k + 1..] == t[idx + k + 1..];
    JoinFront(t[..idx], e, MergedMap(t[idx + k + 1..]));
  }

  lemma JoinFront(a: seq<Entry>, e: Entry, b: seq<Entry>)
    ensures a + ([e] + b) == a + [e] + b
  {}

  lemma MergedRest(t: seq<Entry>, idx: nat)
    requires idx <= |t| <= idx + 1
    ensures t[..idx] + MergedMap(t[idx..]) == t
  {}

  lemma {:induction false} MergeOn(s: seq<Entry>, t: seq<Entry>, idx: nat)
    requires Merging(s, t, idx) && idx <= |t| && (idx == 0 ==> |t| > 1)
    ensures var r := t[..idx] + MergedMap(t[idx..]);
      if Uniform(s) then |r| == 1 && r[0].base == 0 && r[0].len == 0 else Orderly(r) && Settled(r) && SameMap(s, r)
    decreases |t| - idx
  {
    if idx + 1 < |t| {
      var k := RunLength(t[idx..]);
      RunLengthIs(t, idx, k);
      MergedTurn(t, idx, k);
      MergeStep(s, t, idx, k);
      MergeOn(s, Fused(t, idx, k), idx + 1);
    } else {
      MergedRest(t, idx);
    }
    hide Uniform, Orderly, SameMap, Fused, MergedMap, RunLength;
  }

  /** Merging disjoint entries keeps the map, unless it is uniform: then its one entry would need length 2^64. */
  lemma MergedMeans(s: seq<Entry>, t: seq<Entry>)
    requires Disjoint(s) && multiset(s) == multiset(t) && Sorting.SortedBy(t, BaseOf)
    ensures Uniform(s) ==> |MergedMap(t)| == 1 && MergedMap(t)[0].base == 0 && MergedMap(t)[0].len == 0
    ensures !Uniform(s) ==> Orderly(MergedMap(t)) && Settled(MergedMap(t)) && SameMap(s, MergedMap(t))
  {
    SortedIsOrderly(s, t);
    SameUniform(s, t);
    if |t| > 1 {
      assert t[..0] + MergedMap(t[0..]) == MergedMap(t);
      MergeOn(s, t, 0);
    } else if Uniform(t) {
      UniformIsChain(t);
    }
    hide Uniform, Orderly, SameMap, Disjoint, Sorting.SortedBy;
  }

  lemma OneIsSorted(s: seq<Entry>)
    ensures |s| <= 1 ==> Sorting.SortedBy(s, BaseOf) && Sorting.StableRearrangement(s, s, BaseOf)
    ensures |s| <= 1 ==> MergedMap(s) == s
  {}

  lemma RearrangedCounts(s: seq<Entry>, t: seq<Entry>)
    requires Sorting.StableRearrangement(s, t, BaseOf)
    ensures |s| == |t| && multiset(s) == multiset(t)
  {}

  /** Sorts and merges whatever entries there are; disjoint ones keep their meaning unless the map is uniform. */
  method Merge(a: array<Entry>, n: nat) returns (m: nat)
    requires n <= a.Length
    modifies a
    ensures m <= n
    ensures exists t ::
      Sorting.SortedBy(t, BaseOf) && Sorting.StableRearrangement(old(a[..n]), t, BaseOf) && a[..m] == MergedMap(t)
    ensures Disjoint(old(a[..n])) && Uniform(old(a[..n])) ==> m == 1 && a[0].base == 0 && a[0].len == 0
    ensures Disjoint(old(a[..n])) && !Uniform(old(a[..n])) ==>
      Orderly(a[..m]) && Settled(a[..m]) && SameMap(old(a[..n]), a[..m])
  {
    ghost var s := a[..n];
    m := n;
    if n > 1 { Sorting.BubbleSort(a, n, Compare, BaseOf); }
    ghost var t := a[..n];
    hide *;
    OneIsSorted(s);
    RearrangedCounts(s, t);
    if n > 1 { m := MergeSorted(a, n); }
    if Disjoint(s) { MergedMeans(s, t); }
    assert |a[..m]| == m && (m > 0 ==> a[..m][0] == a[0]);
  }

  /** The merge loop over sorted entries. */
  method MergeSorted(a: array<Entry>, n: nat) returns (m: nat)
    requires 1 < n <= a.Length
    modifies a
    ensures 1 <= m <= n && a[..m] == MergedMap(old(a[..n]))
  {
    hide *;
    ghost var t := a[..n];
    m := n;
    var idx := 0;
    FromTheStart(t);
    while idx < m - 1
      invariant 1 <= m <= n && 0 <= idx <= m
      invariant a[..m][..idx] + MergedMap(a[..m][idx..]) == MergedMap(t)
    {
      ghost var u := a[..m];
      var k := ChainLength(a, idx, m);
      RunLengthIs(u, idx, k);
      MergedTurn(u, idx, k);
      m := Fuse(a, idx, k, m);
      idx := idx + 1;
    }
    MergedRest(a[..m], idx);
  }

  lemma FromTheStart(t: seq<Entry>)
    ensures t[..0] + MergedMap(t[0..]) == MergedMap(t)
  {
    assert t[0..] == t;
    hide MergedMap;
  }

  /** How many entries behind idx can be merged into it, one after the other. */
  method ChainLength(a: array<Entry>, idx: nat, m: nat) returns (k: nat)
    requires idx + 1 < m <= a.Length
    ensures idx + k < m && Chain(a[..m], idx, k)
    ensures idx + k + 1 < m ==> !Joins(a[idx + k], a[idx + k + 1])
  {
    k := 0;
    while k < m - idx - 1
      invariant 0 <= k <= m - idx - 1
      invariant Chain(a[..m], idx, k)
    {
      if !Joins(a[idx + k], a[idx + k + 1]) { break; }
      k := k + 1;
    }
  }

  method Fuse(a: array<Entry>, idx: nat, k: nat, m: nat) returns (r: nat)
    requires idx + k < m <= a.Length
    modifies a
    ensures r == m - k && a[..r] == Fused(old(a[..m]), idx, k)
  {
    ghost var t := a[..m];
    FusedAt(t, idx, k);
    SameEntry(t[idx], t[idx + k]);
    hide Fused, FusedEntry;
    if k > 0 {
      var len := SubU64(AddU64(a[idx + k].base, a[idx + k].len), a[idx].base);
      FusedLength(t[idx], t[idx + k], len);
      a[idx] := Entry(a[idx].base, len, a[idx].kind, a[idx].attributes);
      if idx + k + 1 < m {
        forall i | idx + 1 <= i < m - k {
          a[i] := a[i + k];
        }
      }
    }
    r := m - k;
    assert forall j :: 0 <= j < r ==> a[j] == Fused(t, idx, k)[j];
  }

  lemma SameEntry(e: Entry, f: Entry)
    ensures e == f ==> FusedEntry(e, f) == e
  {}

  lemma FusedLength(e: Entry, f: Entry, len: U64)
    requires len == SubU64(AddU64(f.base, f.len), e.base)
    ensures FusedEntry(e, f) == Entry(e.base, len, e.kind, e.attributes)
  {}

  // ---------- entries that overlap ----------

  /** Entries in base order inside the space. */
  ghost predicate InBaseOrder(s: seq<Entry>) {
    && (forall i :: 0 <= i < |s| ==> InSpace(s[i].base, s[i].len))
    && (forall i, j :: 0 <= i < j < |s| ==> s[i].base <= s[j].base)
  }

  /** What a map says apart from the entries i to i + n. */
  ghost function Others(s: seq<Entry>, i: nat, n: nat): seq<Entry>
    requires i + n < |s|
  {
    s[..i] + s[i + n + 1..]
  }

  lemma {:induction false} ChainCovers(s: seq<Entry>, i: nat, n: nat, x: int)
    requires InBaseOrder(s) && i + n < |s| && Chain(s, i, n)
    ensures s[i].base <= x < s[i + n].End() ==> InEntries(s, i, n, x)
    ensures forall j :: i <= j <= i + n ==> s[j].kind == s[i].kind && s[j].attributes == s[i].attributes
    decreases n
  {
    if n == 0 {
      if s[i].base <= x < s[i].End() { assert InRange(x, s[i].base, s[i].len); }
    } else {
      ChainCovers(s, i, n - 1, x);
      var l := i + n - 1;
      assert Joins(s[l], s[l + 1]);
      if s[i].base <= x < s[l].End() {
        var j :| i <= j <= l && InRange(x, s[j].base, s[j].len);
        assert InEntries(s, i, n, x);
      } else if x < s[l + 1].End() && s[l].End() <= x {
        assert InRange(x, s[l + 1].base, s[l + 1].len);
      }
    }
  }

  /** The map is the entries of the run and the others. */
  lemma RunOrOther(s: seq<Entry>, i: nat, n: nat, x: int, k: U32, at: U32)
    requires i + n < |s| && forall j :: i <= j <= i + n ==> s[j].kind == s[i].kind && s[j].attributes == s[i].attributes
    ensures Describes(s, x, k, at) <==>
      Describes(Others(s, i, n), x, k, at) || (InEntries(s, i, n, x) && k == s[i].kind && at == s[i].attributes)
  {
    var o := Others(s, i, n);
    if Describes(s, x, k, at) {
      var j := DescribedBy(s, k, at, x);
      if j < i { assert o[j] == s[j]; }
      if j > i + n { assert o[j - n - 1] == s[j]; }
    }
    if Describes(o, x, k, at) {
      var j := DescribedBy(o, k, at, x);
      assert o[j] == s[if j < i then j else j + n + 1];
      assert o[j] in s;
    }
    if InEntries(s, i, n, x) {
      var j :| i <= j <= i + n && InRange(x, s[j].base, s[j].len);
      assert s[j] in s;
    }
  }

  lemma FusedOrOther(s: seq<Entry>, i: nat, n: nat, x: int, k: U32, at: U32)
    requires i + n < |s|
    ensures var f := Fused(s, i, n)[i];
      Describes(Fused(s, i, n), x, k, at) <==>
      Describes(Others(s, i, n), x, k, at) || (InRange(x, f.base, f.len) && k == s[i].kind && at == s[i].attributes)
  {
    var t := Fused(s, i, n);
    FusedAt(s, i, n);
    assert t[..i] == s[..i] && t[i + 1..] == s[i + n + 1..];
    assert Others(t, i, 0) == Others(s, i, n);
    RunOrOther(t, i, 0, x, k, at);
    if InRange(x, t[i].base, t[i].len) { assert InEntries(t, i, 0, x); }
  }

  /** An address of the run behind the end of the fused entry. */
  ghost predicate BehindEnd(s: seq<Entry>, i: nat, n: nat, x: int)
    requires i + n < |s|
  {
    InEntries(s, i, n, x) && Fused(s, i, n)[i].End() <= x
  }

  /** The fused entry covers the run up to its own end. */
  lemma FusedRange(s: seq<Entry>, i: nat, n: nat, x: int)
    requires InBaseOrder(s) && i + n < |s| && Chain(s, i, n)
    ensures var f := FusedEntry(s[i], s[i + n]);
      InRange(x, f.base, f.len) <==> InEntries(s, i, n, x) && !BehindEnd(s, i, n, x)
  {
    ChainCovers(s, i, n, x);
    FusedAt(s, i, n);
    assert s[i].base <= s[i + n].base && InSpace(s[i + n].base, s[i + n].len);
    FusedEndsBy(s[i], s[i + n]);
    if InEntries(s, i, n, x) {
      var j :| i <= j <= i + n && InRange(x, s[j].base, s[j].len);
      assert s[i].base <= s[j].base;
    }
    hide Fused, FusedEntry, InEntries, Chain, InBaseOrder;
  }

  /** One address before and after fusing. */
  lemma FusedAddress(s: seq<Entry>, i: nat, n: nat, x: int, k: U32, at: U32)
    requires InBaseOrder(s) && i + n < |s| && Chain(s, i, n)
    ensures Describes(s, x, k, at) <==>
      Describes(Others(s, i, n), x, k, at) || (InEntries(s, i, n, x) && k == s[i].kind && at == s[i].attributes)
    ensures Describes(Fused(s, i, n), x, k, at) <==>
      Describes(Others(s, i, n), x, k, at)
      || (InEntries(s, i, n, x) && !BehindEnd(s, i, n, x) && k == s[i].kind && at == s[i].attributes)
  {
    ChainCovers(s, i, n, x);
    RunOrOther(s, i, n, x, k, at);
    FusedOrOther(s, i, n, x, k, at);
    FusedRange(s, i, n, x);
    FusedAt(s, i, n);
    hide Fused, FusedEntry, Others, Describes, InEntries, Chain, InBaseOrder;
  }

  lemma FusedEndsBy(e: Entry, f: Entry)
    requires e.base <= f.base && InSpace(f.base, f.len)
    ensures FusedEntry(e, f).base == e.base && FusedEntry(e, f).End() <= f.End()
  {}

  /** Fusing a run keeps the map exactly when what lies behind the fused entry is reported outside the run as well. */
  lemma FusedKeepsExactly(s: seq<Entry>, i: nat, n: nat)
    requires InBaseOrder(s) && i + n < |s| && Chain(s, i, n)
    ensures SameMap(s, Fused(s, i, n)) <==>
      forall x: int :: BehindEnd(s, i, n, x) ==> Describes(Others(s, i, n), x, s[i].kind, s[i].attributes)
  {
    var t, k0, at0 := Fused(s, i, n), s[i].kind, s[i].attributes;
    forall x: int, k, at
      ensures Describes(s, x, k, at) <==>
        Describes(Others(s, i, n), x, k, at) || (InEntries(s, i, n, x) && k == k0 && at == at0)
      ensures Describes(t, x, k, at) <==>
        Describes(Others(s, i, n), x, k, at)
          || (InEntries(s, i, n, x) && !BehindEnd(s, i, n, x) && k == k0 && at == at0)
    {
      FusedAddress(s, i, n, x, k, at);
    }
    hide Fused, Chain, Others, Describes, InEntries;
    if SameMap(s, t) {
      forall x: int | BehindEnd(s, i, n, x)
        ensures Describes(Others(s, i, n), x, k0, at0)
      {
        assert Describes(s, x, k0, at0) <==> Describes(t, x, k0, at0);
      }
    }
  }

  /**
    A map that is one run keeps its meaning exactly when no entry ends behind the last, and they do not fill the
    space.
  */
  lemma RunKeeps(s: seq<Entry>)
    requires s != [] && InBaseOrder(s) && Chain(s, 0, |s| - 1)
    ensures
      var n := |s| - 1;
      SameMap(s, Fused(s, 0, n)) <==>
        (s[0].base > 0 || s[n].End() < SPACE) && forall j :: 0 <= j <= n ==> s[j].End() <= s[n].End()
  {
    var n := |s| - 1;
    FusedKeepsExactly(s, 0, n);
    assert Others(s, 0, n) == [];
    FusedAt(s, 0, n);
    var f := Fused(s, 0, n)[0];
    hide Fused, Chain, SameMap, Others;
    assert f.End() == if s[0].base == 0 && s[n].End() == SPACE then 0 else s[n].End();
    if j :| 0 <= j <= n && s[j].End() > f.End() {
      assert InRange(s[j].End() - 1, s[j].base, s[j].len);
      assert BehindEnd(s, 0, n, s[j].End() - 1);
      assert !Describes([], s[j].End() - 1, s[0].kind, s[0].attributes);
    }
    forall x: int | BehindEnd(s, 0, n, x)
      ensures exists j :: 0 <= j <= n && s[j].End() > f.End()
    {
      var j :| 0 <= j <= n && InRange(x, s[j].base, s[j].len);
    }
  }

  /** Two neighbours that join: the first must not reach farther than the second. */
  lemma OverlapIsLost(a: Entry, b: Entry)
    requires InSpace(a.base, a.len) && InSpace(b.base, b.len) && a.base <= b.base && Joins(a, b)
    requires a.base > 0 || b.End() < SPACE
    ensures SameMap([a, b], Fused([a, b], 0, 1)) <==> a.End() <= b.End()
  {
    RunKeeps([a, b]);
    hide SameMap, Fused, Joins;
  }

  /** What lies behind the end of a fused run is still reported, with the same type and attributes, by m. */
  ghost predicate LostKept(t: seq<Entry>, m: seq<Entry>)
    decreases |t|
  {
    |t| > 1 ==>
      var n := RunLength(t);
      && (forall x: int :: BehindEnd(t, 0, n, x) ==> Describes(m, x, t[0].kind, t[0].attributes))
      && LostKept(t[n + 1..], m)
  }

  /**
    A sorted map, whether entries overlap or not, keeps its meaning when it is merged exactly when the merged map
    reports what its runs lose.
  */
  lemma OverlapsKept(t: seq<Entry>)
    requires InBaseOrder(t)
    ensures SameMap(t, MergedMap(t)) <==> LostKept(t, MergedMap(t))
  {
    hide *;
    var m := MergedMap(t);
    EachReports(t, m);
    AllReported(t);
    AllReported(m);
    MergedReports(t);
    if SameMap(t, m) { NothingLost(t, m); }
    if LostKept(t, m) { LossesCovered(t, m); }
  }

  /** Everything s reports, t reports. */
  ghost predicate Reports(t: seq<Entry>, s: seq<Entry>) {
    forall x: int, k, at :: Describes(s, x, k, at) ==> Describes(t, x, k, at)
  }

  lemma AllReported(s: seq<Entry>)
    ensures Reports(s, s)
  {
    hide Describes;
  }

  lemma EachReports(s: seq<Entry>, t: seq<Entry>)
    ensures SameMap(s, t) <==> Reports(s, t) && Reports(t, s)
  {
    hide Describes;
  }

  /** One address in the map and in the merged map, by the first run and the rest. */
  lemma MergedFront(t: seq<Entry>, x: int, k: U32, at: U32)
    requires InBaseOrder(t) && |t| > 1
    ensures
      var n := RunLength(t);
      var run := k == t[0].kind && at == t[0].attributes && InEntries(t, 0, n, x);
      && (Describes(t, x, k, at) <==> Describes(t[n + 1..], x, k, at) || run)
      && (Describes(MergedMap(t), x, k, at) <==>
          Describes(MergedMap(t[n + 1..]), x, k, at) || (run && !BehindEnd(t, 0, n, x)))
  {
    var n := RunLength(t);
    var e, r := FusedEntry(t[0], t[n]), t[n + 1..];
    RunStarts(t);
    FusedAddress(t, 0, n, x, k, at);
    FusedRange(t, 0, n, x);
    assert Others(t, 0, n) == r;
    hide *;
    BehindOne(e, MergedMap(r), x, k, at);
    FusedKind(t[0], t[n]);
  }

  lemma FusedKind(e: Entry, f: Entry)
    ensures FusedEntry(e, f).kind == e.kind && FusedEntry(e, f).attributes == e.attributes
  {}

  lemma RunStarts(t: seq<Entry>)
    requires |t| > 1
    ensures Chain(t, 0, RunLength(t))
    ensures MergedMap(t) == [FusedEntry(t[0], t[RunLength(t)])] + MergedMap(t[RunLength(t) + 1..])
  {
    RunLengthIs(t, 0, RunLength(t));
    hide *;
    assert t[0..] == t;
    MergedSplit(t, RunLength(t));
  }

  lemma MergedSplit(t: seq<Entry>, n: nat)
    requires |t| > 1 && n == RunLength(t)
    ensures MergedMap(t) == [FusedEntry(t[0], t[n])] + MergedMap(t[n + 1..])
  {
    hide RunLength, FusedEntry;
  }

  lemma RestInOrder(t: seq<Entry>, n: nat)
    requires InBaseOrder(t) && n <= |t|
    ensures InBaseOrder(t[n..])
  {}

  /** The merged map reports nothing new. */
  lemma {:induction false} MergedReports(t: seq<Entry>)
    requires InBaseOrder(t)
    ensures Reports(t, MergedMap(t))
    decreases |t|
  {
    if |t| > 1 {
      var n := RunLength(t);
      hide *;
      RestInOrder(t, n + 1);
      MergedReports(t[n + 1..]);
      forall x: int, k, at | Describes(MergedMap(t), x, k, at)
        ensures Describes(t, x, k, at)
      {
        MergedFront(t, x, k, at);
        Reported(t[n + 1..], MergedMap(t[n + 1..]), x, k, at);
      }
      ReportsAll(t, MergedMap(t));
    } else {
      AllReported(t);
    }
  }

  lemma Reported(t: seq<Entry>, s: seq<Entry>, x: int, k: U32, at: U32)
    requires Reports(t, s)
    ensures Describes(s, x, k, at) ==> Describes(t, x, k, at)
  {
    hide Describes;
  }

  lemma ReportsAll(t: seq<Entry>, s: seq<Entry>)
    requires forall x: int, k, at :: Describes(s, x, k, at) ==> Describes(t, x, k, at)
    ensures Reports(t, s)
  {
    hide Describes;
  }

  /** A map that reports everything t does reports what its runs lose. */
  lemma {:induction false} NothingLost(t: seq<Entry>, m: seq<Entry>)
    requires InBaseOrder(t) && Reports(m, t)
    ensures LostKept(t, m)
    decreases |t|
  {
    hide Describes, Reports, MergedMap, InBaseOrder, BehindEnd, RunLength;
    if |t| > 1 {
      var n := RunLength(t);
      RestInOrder(t, n + 1);
      forall x: int, k, at
        ensures Describes(t[n + 1..], x, k, at) ==> Describes(m, x, k, at)
        ensures BehindEnd(t, 0, n, x) && k == t[0].kind && at == t[0].attributes ==> Describes(m, x, k, at)
      {
        MergedFront(t, x, k, at);
        BehindInside(t, n, x);
        Reported(m, t, x, k, at);
      }
      ReportsAll(m, t[n + 1..]);
      NothingLost(t[n + 1..], m);
    }
  }

  lemma BehindInside(t: seq<Entry>, n: nat, x: int)
    requires n < |t|
    ensures BehindEnd(t, 0, n, x) ==> InEntries(t, 0, n, x)
  {}

  /** What is lost being reported, everything is. */
  lemma {:induction false} LossesCovered(t: seq<Entry>, m: seq<Entry>)
    requires InBaseOrder(t) && LostKept(t, m) && Reports(m, MergedMap(t))
    ensures Reports(m, t)
    decreases |t|
  {
    hide Describes, Reports, MergedMap, InBaseOrder, BehindEnd, RunLength;
    if |t| > 1 {
      var n := RunLength(t);
      var r := t[n + 1..];
      RestInOrder(t, n + 1);
      forall x: int, k, at
        ensures Describes(MergedMap(r), x, k, at) ==> Describes(m, x, k, at)
      {
        MergedFront(t, x, k, at);
        Reported(m, MergedMap(t), x, k, at);
      }
      ReportsAll(m, MergedMap(r));
      LossesCovered(r, m);
      forall x: int, k, at
        ensures Describes(t, x, k, at) ==> Describes(m, x, k, at)
      {
        MergedFront(t, x, k, at);
        Reported(m, MergedMap(t), x, k, at);
        Reported(m, r, x, k, at);
      }
      ReportsAll(m, t);
    } else {
      ShortMerged(t);
    }
  }

  lemma ShortMerged(t: seq<Entry>)
    requires |t| <= 1
    ensures MergedMap(t) == t
  {}

  /** In every run no entry ends behind the last, and no run fills the space: then nothing is lost. */
  ghost predicate LastEndsLast(t: seq<Entry>) {
    |t| > 1 ==>
      var n := RunLength(t);
      && (t[0].base > 0 || t[n].End() < SPACE) && (forall j :: 0 <= j <= n ==> t[j].End() <= t[n].End())
      && LastEndsLast(t[n + 1..])
  }

  lemma {:induction false} EndsLastKept(t: seq<Entry>, m: seq<Entry>)
    requires InBaseOrder(t) && LastEndsLast(t)
    ensures LostKept(t, m)
    decreases |t|
  {
    hide InBaseOrder, BehindEnd, RunLength, Describes;
    if |t| > 1 {
      var n := RunLength(t);
      NoneBehind(t, n);
      RestInOrder(t, n + 1);
      EndsLastKept(t[n + 1..], m);
    }
  }

  lemma NoneBehind(t: seq<Entry>, n: nat)
    requires InBaseOrder(t) && n < |t| && (t[0].base > 0 || t[n].End() < SPACE)
    requires forall j :: 0 <= j <= n ==> t[j].End() <= t[n].End()
    ensures forall x: int :: !BehindEnd(t, 0, n, x)
  {
    FusedAt(t, 0, n);
    assert t[0].base <= t[n].base && InSpace(t[n].base, t[n].len);
    hide InBaseOrder, Fused;
    assert FusedEntry(t[0], t[n]).End() == t[n].End();
  }

  lemma BehindOne(e: Entry, r: seq<Entry>, x: int, k: U32, at: U32)
    ensures Describes([e] + r, x, k, at) <==>
      Describes(r, x, k, at) || (InRange(x, e.base, e.len) && e.kind == k && e.attributes == at)
  {
    assert e in [e] + r;
    assert forall d :: d in r ==> d in [e] + r;
  }

  /** A map that loses an address: the second entry lies inside the first. */
  lemma OverlapExample()
    ensures var s := [Entry(0, 10, AVAILABLE, 0), Entry(2, 3, AVAILABLE, 0)];
      Chain(s, 0, 1) && Describes(s, 7, AVAILABLE, 0) && !Describes(Fused(s, 0, 1), 7, AVAILABLE, 0)
  {
    var s := [Entry(0, 10, AVAILABLE, 0), Entry(2, 3, AVAILABLE, 0)];
    assert s[0] in s;
    assert Fused(s, 0, 1) == [Entry(0, 5, AVAILABLE, 0)];
  }
}
