/** The run-time memory allocator: a bounded table of allocated ranges, sorted and merged. */
module Allocator {
  import opened AddressRanges
  import opened Arithmetic

  const MAX_ALLOCS_NR: nat := 4096
  const MAX_32_BIT_ADDR: U64 := 0xffff_ffff

  datatype Range = Range(base: U64, len: U64) {
    function End(): int {
      base + len
    }
  }

  /** Halted stands for the endless loop a failed sanity check ends in. */
  datatype Status = Success | OutOfResources | InvalidParameter | Halted

  datatype Placement = Below4G | Fixed | Force | Anywhere

  // ---------- tables as sequences ----------

  /** Non-empty ranges, in order, with a gap between any two neighbours. */
  ghost predicate Merged(t: seq<Range>) {
    && (forall i :: 0 <= i < |t| ==> InSpace(t[i].base, t[i].len))
    && (forall i, j :: 0 <= i < j < |t| ==> t[i].End() < t[j].base)
  }

  ghost predicate Covers(t: seq<Range>, x: int) {
    exists i :: 0 <= i < |t| && InRange(x, t[i].base, t[i].len)
  }

  /** The table after `merges` entries from `idx` are replaced by one. */
  ghost function Replaced(t: seq<Range>, idx: nat, merges: nat, r: Range): seq<Range>
    requires idx + merges <= |t|
  {
    t[..idx] + [r] + t[idx + merges..]
  }

  /** What the two scans establish about the position of a new range. */
  ghost predicate Positioned(t: seq<Range>, base: U64, len: U64, idx: nat, merges: nat) {
    && InSpace(base, len) && idx + merges <= |t|
    && (forall i :: 0 <= i < idx ==> t[i].End() < base)
    && (forall i :: idx <= i < idx + merges ==> IsMergeable(base, len, t[i].base, t[i].len))
    && (forall i :: idx + merges <= i < |t| ==> base + len < t[i].base)
  }

  /** The range that takes the place of the merged entries, ends taken in the unbounded integers. */
  ghost function Union(t: seq<Range>, base: U64, len: U64, idx: nat, merges: nat): (int, int)
    requires idx + merges <= |t| && merges > 0
  {
    var lo := if base < t[idx].base then base else t[idx].base;
    var hi := if base + len < t[idx + merges - 1].End() then t[idx + merges - 1].End() else base + len;
    (lo, hi)
  }

  lemma UnionCovers(t: seq<Range>, base: U64, len: U64, idx: nat, merges: nat, x: int)
    requires merges > 0 && Merged(t) && Positioned(t, base, len, idx, merges)
    ensures var (lo, hi) := Union(t, base, len, idx, merges);
            lo <= x < hi <==>
              InRange(x, base, len) || exists i :: idx <= i < idx + merges && InRange(x, t[i].base, t[i].len)
  {
    var (lo, hi) := Union(t, base, len, idx, merges);
    var last := idx + merges - 1;
    assert IsMergeable(base, len, t[idx].base, t[idx].len) && IsMergeable(base, len, t[last].base, t[last].len);
    forall i | idx <= i < idx + merges && InRange(x, t[i].base, t[i].len)
      ensures lo <= x < hi
    {
    }
    if lo <= x < hi && !InRange(x, base, len) {
      if x < base {
        assert InRange(x, t[idx].base, t[idx].len);
      } else {
        assert InRange(x, t[last].base, t[last].len);
      }
    }
  }

  lemma ReplacedAt(t: seq<Range>, idx: nat, merges: nat, r: Range)
    requires idx + merges <= |t|
    ensures |Replaced(t, idx, merges, r)| == |t| - merges + 1
    ensures forall i {:trigger Replaced(t, idx, merges, r)[i]} :: 0 <= i < |t| - merges + 1 ==>
      Replaced(t, idx, merges, r)[i] == if i < idx then t[i] else if i == idx then r else t[i + merges - 1]
  {}

  /** Replacing entries by a range that keeps clear of its new neighbours keeps the table merged. */
  lemma ReplacedIsMerged(t: seq<Range>, idx: nat, merges: nat, r: Range)
    requires Merged(t) && idx + merges <= |t| && InSpace(r.base, r.len)
    requires forall i :: 0 <= i < idx ==> t[i].End() < r.base
    requires forall i :: idx + merges <= i < |t| ==> r.End() < t[i].base
    ensures Merged(Replaced(t, idx, merges, r))
  {
    ReplacedAt(t, idx, merges, r);
    hide Replaced;
  }

  lemma ReplacedIs(t: seq<Range>, u: seq<Range>, idx: nat, merges: nat, r: Range)
    requires idx + merges <= |t| && |u| == |t| - merges + 1
    requires forall i {:trigger u[i]} :: 0 <= i < |u| ==>
      u[i] == if i < idx then t[i] else if i == idx then r else t[i + merges - 1]
    ensures u == Replaced(t, idx, merges, r)
  {
    ReplacedAt(t, idx, merges, r);
    hide Replaced;
  }

  lemma ReplacedCovers(t: seq<Range>, base: U64, len: U64, idx: nat, merges: nat, r: Range, x: int)
    requires idx + merges <= |t|
    requires InRange(x, r.base, r.len) <==>
      InRange(x, base, len) || exists i :: idx <= i < idx + merges && InRange(x, t[i].base, t[i].len)
    ensures Covers(Replaced(t, idx, merges, r), x) <==> Covers(t, x) || InRange(x, base, len)
  {
    var u := Replaced(t, idx, merges, r);
    ReplacedAt(t, idx, merges, r);
    hide Replaced, InRange;
    if Covers(u, x) {
      var i :| 0 <= i < |u| && InRange(x, u[i].base, u[i].len);
      if i < idx {
        assert u[i] == t[i];
      } else if i > idx {
        assert u[i] == t[i + merges - 1];
      }
    }
    if Covers(t, x) {
      var i :| 0 <= i < |t| && InRange(x, t[i].base, t[i].len);
      if i < idx {
        assert u[i] == t[i];
      } else if i >= idx + merges {
        assert u[i - merges + 1] == t[i];
      } else {
        assert u[idx] == r;
      }
    }
    if InRange(x, base, len) { assert u[idx] == r && InRange(x, u[idx].base, u[idx].len); }
  }

  /** The table with a new range taken up, by merging when it touches an entry. */
  lemma AddedRange(t: seq<Range>, base: U64, len: U64, idx: nat, merges: nat, r: Range)
    requires Merged(t) && Positioned(t, base, len, idx, merges)
    requires if merges == 0 then r == Range(base, len) else (r.base, r.End()) == Union(t, base, len, idx, merges)
    ensures Merged(Replaced(t, idx, merges, r))
    ensures forall x: int :: Covers(Replaced(t, idx, merges, r), x) <==> Covers(t, x) || InRange(x, base, len)
  {
    if merges > 0 { UnionBounds(t, base, len, idx, merges); }
    ReplacedIsMerged(t, idx, merges, r);
    hide Replaced, Merged, Covers;
    forall x: int
      ensures Covers(Replaced(t, idx, merges, r), x) <==> Covers(t, x) || InRange(x, base, len)
    {
      if merges > 0 { UnionCovers(t, base, len, idx, merges, x); }
      ReplacedCovers(t, base, len, idx, merges, r, x);
    }
  }

  lemma UnionBounds(t: seq<Range>, base: U64, len: U64, idx: nat, merges: nat)
    requires Merged(t) && Positioned(t, base, len, idx, merges) && merges > 0
    ensures var (lo, hi) := Union(t, base, len, idx, merges);
            && 0 <= lo < hi <= SPACE
            && (forall i :: 0 <= i < idx ==> t[i].End() < lo)
            && (forall i :: idx + merges <= i < |t| ==> hi < t[i].base)
  {
    var last := idx + merges - 1;
    assert IsMergeable(base, len, t[idx].base, t[idx].len) && IsMergeable(base, len, t[last].base, t[last].len);
  }

  /** A range that would swallow the whole address space cannot be written down: its length is 2^64. */
  ghost predicate FillsSpace(t: seq<Range>, base: U64, len: U64) {
    forall x: int :: 0 <= x < SPACE ==> Covers(t, x) || InRange(x, base, len)
  }

  lemma FullUnion(t: seq<Range>, base: U64, len: U64, idx: nat, merges: nat)
    requires Merged(t) && Positioned(t, base, len, idx, merges) && merges > 0
    ensures Union(t, base, len, idx, merges) == (0, SPACE) <==> FillsSpace(t, base, len)
    ensures Union(t, base, len, idx, merges) == (0, SPACE) ==> idx == 0 && merges == |t|
  {
    UnionBounds(t, base, len, idx, merges);
    var (lo, hi) := Union(t, base, len, idx, merges);
    forall x: int | 0 <= x < SPACE && (lo, hi) == (0, SPACE)
      ensures Covers(t, x) || InRange(x, base, len)
    {
      UnionCovers(t, base, len, idx, merges, x);
    }
    assert idx > 0 ==> t[0].End() < lo;
    assert idx + merges < |t| ==> hi < t[idx + merges].base;
    if FillsSpace(t, base, len) {
      if lo > 0 { NotCoveredBelow(t, base, len, idx, merges); }
      if hi < SPACE { NotCoveredAt(t, base, len, idx, merges); }
    }
  }

  lemma NotCoveredBelow(t: seq<Range>, base: U64, len: U64, idx: nat, merges: nat)
    requires Merged(t) && Positioned(t, base, len, idx, merges) && merges > 0
    requires Union(t, base, len, idx, merges).0 > 0
    ensures var x := Union(t, base, len, idx, merges).0 - 1; !Covers(t, x) && !InRange(x, base, len)
  {
    UnionBounds(t, base, len, idx, merges);
    UnionCovers(t, base, len, idx, merges, Union(t, base, len, idx, merges).0 - 1);
  }

  lemma NotCoveredAt(t: seq<Range>, base: U64, len: U64, idx: nat, merges: nat)
    requires Merged(t) && Positioned(t, base, len, idx, merges) && merges > 0
    requires Union(t, base, len, idx, merges).1 < SPACE
    ensures var x := Union(t, base, len, idx, merges).1; !Covers(t, x) && !InRange(x, base, len)
  {
    UnionBounds(t, base, len, idx, merges);
    UnionCovers(t, base, len, idx, merges, Union(t, base, len, idx, merges).1);
  }

  // ---------- the search for a hole ----------

  /** The least multiple of `unit` at or above n, before it is cut to 64 bits. */
  ghost predicate IsRoundUp(n: int, unit: int, r: int)
    requires unit > 0
  {
    n <= r && r % unit == 0 && forall m: int :: n <= m && m % unit == 0 ==> r <= m
  }

  function RoundUp64(n: U64, unit: U64): U64
    requires unit > 0
  {
    var u: int := n / unit;
    var v: int := if n % unit > 0 then u + 1 else u;
    Wrap(v * unit)
  }

  /** Rounding in 64 bits gives the true multiple, or wraps to something smaller than n. */
  lemma RoundUpValue(n: U64, unit: U64) returns (m: int)
    requires unit > 0
    ensures IsRoundUp(n, unit, m) && n <= m < n + unit
    ensures if m < SPACE then RoundUp64(n, unit) == m else RoundUp64(n, unit) < n
  {
    RoundUpIsLeast(n, unit);
    m := (if n % unit > 0 then n / unit + 1 else n / unit) * unit;
    assert RoundUp64(n, unit) == Wrap(m);
    hide IsRoundUp, RoundUp64;
    WrapsBelow(n, unit, m);
  }

  lemma WrapsBelow(n: U64, unit: U64, m: int)
    requires n <= m < n + unit
    ensures if m < SPACE then Wrap(m) == m else Wrap(m) < n
  {
    if m >= SPACE { assert Wrap(m) == m - SPACE; }
  }

  lemma RoundUpIsLeast(n: int, unit: int)
    requires n >= 0 && unit > 0
    ensures var v := if n % unit > 0 then n / unit + 1 else n / unit;
            IsRoundUp(n, unit, v * unit) && v * unit < n + unit
  {
    var v := if n % unit > 0 then n / unit + 1 else n / unit;
    assert n == (n / unit) * unit + n % unit;
    assert (n / unit + 1) * unit == (n / unit) * unit + unit;
    MultipleMod(v, unit);
    forall m: int | n <= m && m % unit == 0
      ensures v * unit <= m
    {
      MultipleAtLeast(n, unit, v, m, m / unit);
    }
  }

  lemma MultipleMod(v: int, unit: int)
    requires unit > 0
    ensures (v * unit) % unit == 0
  {
    DivModUnique(v * unit, unit, v, 0);
  }

  lemma MultipleAtLeast(n: int, unit: int, v: int, m: int, k: int)
    requires unit > 0 && n <= m && m == k * unit && v * unit < n + unit
    ensures v * unit <= m
  {
    if k < v {
      Distribute(unit, k, 1);
      MulMono(k + 1, v, unit);
    }
  }

  /** What the search may answer: an aligned, free address below some entry of the table. */
  ghost predicate Candidate(t: seq<Range>, size: int, align: int, low: bool, a: int)
    requires align > 0
  {
    && 0 <= a && a % align == 0
    && |t| > 0 && a + size <= t[|t| - 1].base
    && (low ==> a + size <= MAX_32_BIT_ADDR)
    && Free(t, a, size)
  }

  /** The limit of a search below 4 GB, in plain numbers. */
  lemma CandidateSpelled(t: seq<Range>, size: int, align: int, low: bool, a: int)
    requires align > 0
    ensures Candidate(t, size, align, low, a) <==>
      && 0 <= a && a % align == 0 && |t| > 0 && a + size <= t[|t| - 1].base && (low ==> a + size <= 0xffff_ffff)
      && forall i :: 0 <= i < |t| && t[i].len > 0 && size > 0 ==>
        t[i].base + t[i].len <= a || a + size <= t[i].base
  {
    if Free(t, a, size) {
      forall i | 0 <= i < |t| && t[i].len > 0 && size > 0
        ensures t[i].base + t[i].len <= a || a + size <= t[i].base
      {
        var x := if a < t[i].base then t[i].base else a;
        assert InRange(x, a, size) ==> !Covers(t, x);
        assert InRange(x, t[i].base, t[i].len) ==> Covers(t, x);
      }
    }
  }

  /** No candidate starts below `b`. */
  ghost predicate NoneBelow(t: seq<Range>, size: int, align: int, low: bool, b: int)
    requires align > 0
  {
    forall a: int :: Candidate(t, size, align, low, a) ==> b <= a
  }

  ghost predicate NoCandidate(t: seq<Range>, size: int, align: int, low: bool)
    requires align > 0
  {
    forall a: int :: !Candidate(t, size, align, low, a)
  }

  ghost predicate Free(t: seq<Range>, base: int, len: int) {
    forall x: int :: InRange(x, base, len) ==> !Covers(t, x)
  }

  /** The range overlaps an allocated one or is its neighbour. */
  ghost predicate Touches(t: seq<Range>, base: int, len: int) {
    exists x: int :: base - 1 <= x <= base + len && Covers(t, x)
  }

  ghost function HoleStart(t: seq<Range>, i: nat): int
    requires i <= |t|
  {
    if i == 0 then 0 else t[i - 1].End()
  }

  /** A free range that starts in or after a hole lies inside it, or starts behind the entry that ends it. */
  lemma InHoleOrPast(t: seq<Range>, i: nat, a: int, size: int)
    requires Merged(t) && i < |t| && size > 0
    requires HoleStart(t, i) <= a && Free(t, a, size)
    ensures a + size <= t[i].base || t[i].End() <= a
  {
    if t[i].base < a + size && a < t[i].End() {
      var x := if a < t[i].base then t[i].base else a;
      assert InRange(x, a, size) && InRange(x, t[i].base, t[i].len);
      assert false;
    }
  }

  /** A range inside a hole is free. */
  lemma HoleIsFree(t: seq<Range>, i: nat, a: int, size: int)
    requires Merged(t) && i < |t|
    requires HoleStart(t, i) <= a && a + size <= t[i].base
    ensures Free(t, a, size)
  {
    forall j, x: int | 0 <= j < |t| && InRange(x, a, size)
      ensures !InRange(x, t[j].base, t[j].len)
    {
      if j < i { assert j == i - 1 || t[j].End() < t[i - 1].base; }
      if i < j { assert t[i].End() < t[j].base; }
    }
  }

  /** What the rounded start of a hole says about the candidates that start in or behind it. */
  lemma HoleVerdict(t: seq<Range>, i: nat, size: int, align: int, low: bool, r: int)
    requires Merged(t) && i < |t| && size > 0 && align > 0
    requires IsRoundUp(HoleStart(t, i), align, r)
    requires NoneBelow(t, size, align, low, HoleStart(t, i))
    ensures 0 <= HoleStart(t, i) <= t[i].base && t[i].End() <= SPACE && (i + 1 < |t| ==> t[i].End() < SPACE)
    ensures r + size <= t[i].base && (low ==> r + size <= MAX_32_BIT_ADDR) ==>
      Candidate(t, size, align, low, r) && NoneBelow(t, size, align, low, r)
    ensures r + size > t[i].base ==> NoneBelow(t, size, align, low, t[i].End())
    ensures r + size >= SPACE || (low && r + size > MAX_32_BIT_ADDR) ==> NoCandidate(t, size, align, low)
  {
    assert i > 0 ==> t[i - 1].End() < t[i].base;
    assert i + 1 < |t| ==> t[i].End() < t[|t| - 1].base;
    if r + size <= t[i].base { HoleIsFree(t, i, r, size); }
    forall a: int | Candidate(t, size, align, low, a)
      ensures r <= a && (a + size <= t[i].base || t[i].End() <= a)
    {
      InHoleOrPast(t, i, a, size);
    }
  }

  lemma NothingBelowZero(t: seq<Range>, size: int, align: int, low: bool)
    requires align > 0
    ensures NoneBelow(t, size, align, low, HoleStart(t, 0))
  {}

  lemma NothingPastTheEnd(t: seq<Range>, size: int, align: int, low: bool)
    requires Merged(t) && align > 0 && size > 0 && NoneBelow(t, size, align, low, HoleStart(t, |t|))
    ensures NoCandidate(t, size, align, low)
  {
    forall a: int
      ensures !Candidate(t, size, align, low, a)
    {
      assert |t| > 0 ==> InSpace(t[|t| - 1].base, t[|t| - 1].len);
    }
  }

  // ---------- the allocator ----------

  /** One successful request: the range handed out, and whether it was allowed to overlap earlier ones. */
  datatype Grant = Grant(base: U64, len: U64, forced: bool)

  ghost predicate Granted(gs: seq<Grant>, x: int) {
    exists i :: 0 <= i < |gs| && InRange(x, gs[i].base, gs[i].len)
  }

  /** Every grant that was not forced shares no address with an earlier one. */
  ghost predicate Exclusive(gs: seq<Grant>) {
    forall i, j, x: int :: 0 <= i < j < |gs| && !gs[j].forced && InRange(x, gs[i].base, gs[i].len) ==>
      !InRange(x, gs[j].base, gs[j].len)
  }

  lemma GrantedMore(gs: seq<Grant>, g: Grant, x: int)
    ensures Granted(gs + [g], x) <==> Granted(gs, x) || InRange(x, g.base, g.len)
  {
    var hs := gs + [g];
    if Granted(gs, x) {
      var i :| 0 <= i < |gs| && InRange(x, gs[i].base, gs[i].len);
      assert hs[i] == gs[i];
    }
    assert hs[|gs|] == g;
  }

  lemma ExclusiveMore(gs: seq<Grant>, g: Grant)
    requires Exclusive(gs)
    requires g.forced || forall x: int :: InRange(x, g.base, g.len) ==> !Granted(gs, x)
    ensures Exclusive(gs + [g])
  {
    var hs := gs + [g];
    forall i, j, x: int | 0 <= i < j < |hs| && !hs[j].forced && InRange(x, hs[i].base, hs[i].len)
      ensures !InRange(x, hs[j].base, hs[j].len)
    {
      if j == |gs| {
        assert InRange(x, gs[i].base, gs[i].len);
      }
    }
  }

  class AllocTable {
    const allocs: array<Range>
    var count: nat
    ghost var grants: seq<Grant>

    ghost predicate Shaped()
      reads this
    {
      allocs.Length == MAX_ALLOCS_NR && count <= MAX_ALLOCS_NR
    }

    ghost function Table(): seq<Range>
      reads this, allocs
      requires Shaped()
    {
      allocs[..count]
    }

    /** The invariant of a whole run. */
    ghost predicate Valid()
      reads this, allocs
    {
      && Shaped() && Merged(Table())
      && (forall x: int :: Covers(Table(), x) <==> Granted(grants, x))
      && Exclusive(grants)
    }

    constructor ()
      ensures Valid() && count == 0 && grants == [] && fresh(allocs)
    {
      allocs := new Range[MAX_ALLOCS_NR](_ => Range(0, 0));
      count := 0;
      grants := [];
    }

    method AllocInsert(base: U64, len: U64, index: nat) returns (st: Status)
      requires Shaped()
      modifies this`count, allocs
      ensures Shaped()
      ensures st == if old(count) >= MAX_ALLOCS_NR then OutOfResources else if index > old(count) then InvalidParameter
        else Success
      ensures Table() == if st == Success then Replaced(old(Table()), index, 0, Range(base, len)) else old(Table())
    {
      if count >= MAX_ALLOCS_NR { return OutOfResources; }
      if index > count { return InvalidParameter; }
      ghost var t := Table();
      hide Replaced;
      forall i | index < i <= count {
        allocs[i] := allocs[i - 1];
      }
      allocs[index] := Range(base, len);
      count := count + 1;
      forall i | 0 <= i < count
        ensures allocs[i] == if i < index then t[i] else if i == index then Range(base, len) else t[i - 1]
      {}
      ReplacedIs(t, Table(), index, 0, Range(base, len));
      return Success;
    }

    /** The two scans: where the new range goes and how many entries it touches. */
    method Position(base: U64, len: U64) returns (idx: nat, merges: nat)
      requires Shaped() && Merged(Table()) && InSpace(base, len)
      ensures Positioned(Table(), base, len, idx, merges) && idx + merges <= count
    {
      idx := FirstAtOrAfter(base, len);
      merges := CountMerges(base, len, idx);
    }

    /** The entries before it end below the new range. */
    method FirstAtOrAfter(base: U64, len: U64) returns (idx: nat)
      requires Shaped() && Merged(Table()) && InSpace(base, len)
      ensures idx <= count && forall i :: 0 <= i < idx ==> Table()[i].End() < base
      ensures idx < count ==> var e := Table()[idx]; base <= e.base || IsMergeable(base, len, e.base, e.len)
    {
      ghost var t := Table();
      idx := 0;
      while idx < count
        invariant 0 <= idx <= count
        invariant forall i :: 0 <= i < idx ==> t[i].End() < base
      {
        if base <= allocs[idx].base || IsMergeable(base, len, allocs[idx].base, allocs[idx].len) { break; }
        idx := idx + 1;
      }
    }

    /** How many entries from there on the new range touches. */
    method CountMerges(base: U64, len: U64, idx: nat) returns (merges: nat)
      requires Shaped() && Merged(Table()) && InSpace(base, len) && idx <= count
      requires forall i :: 0 <= i < idx ==> Table()[i].End() < base
      requires idx < count ==> var e := Table()[idx]; base <= e.base || IsMergeable(base, len, e.base, e.len)
      ensures Positioned(Table(), base, len, idx, merges) && idx + merges <= count
    {
      ghost var t := Table();
      merges := 0;
      var n := idx;
      while n < count
        invariant n == idx + merges <= count
        invariant forall i :: idx <= i < idx + merges ==> IsMergeable(base, len, t[i].base, t[i].len)
        invariant n < count ==> base <= t[n].base || IsMergeable(base, len, t[n].base, t[n].len)
      {
        if !IsMergeable(base, len, allocs[n].base, allocs[n].len) { break; }
        if n + 1 < count { assert t[n].End() < t[n + 1].base; }
        merges := merges + 1;
        n := n + 1;
      }
    }

    /** Takes a range into the table. The one range that cannot be taken is the one that completes the address space. */
    method AllocAdd(base: U64, len: U64) returns (st: Status)
      requires Shaped() && Merged(Table()) && InSpace(base, len)
      modifies this`count, allocs
      ensures Shaped()
      ensures st == if old(count) == MAX_ALLOCS_NR && !Touches(old(Table()), base, len) then OutOfResources else Success
      ensures st == OutOfResources ==> Table() == old(Table())
      ensures st == Success && FillsSpace(old(Table()), base, len) ==> Table() == [Range(0, 0)]
      ensures st == Success && !FillsSpace(old(Table()), base, len) ==>
        && Merged(Table())
        && (forall x: int :: Covers(Table(), x) <==> Covers(old(Table()), x) || InRange(x, base, len))
    {
      ghost var t := Table();
      hide Merged, Covers, FillsSpace, Touches, Positioned, Replaced;
      var idx, merges := Position(base, len);
      if merges == 0 {
        InsertedRange(t, base, len, idx);
        st := AllocInsert(base, len, idx);
        return;
      }
      var last := allocs[idx + merges - 1];
      var newbase := if base < allocs[idx].base then base else allocs[idx].base;
      var newlen: U64 := 0;
      if AddU64(base, len) < base || AddU64(last.base, last.len) < last.base {
        newlen := 0;
      } else {
        newlen := if AddU64(base, len) > AddU64(last.base, last.len) then AddU64(base, len)
          else AddU64(last.base, last.len);
      }
      newlen := SubU64(newlen, newbase);
      UnionLength(t, base, len, idx, merges);
      MergedRange(t, base, len, idx, merges, Range(newbase, newlen));
      Overwrite(idx, merges, Range(newbase, newlen));
      return Success;
    }

    /** Puts one entry in the place of several; the entries behind them move down. */
    method Overwrite(idx: nat, merges: nat, r: Range)
      requires Shaped() && merges > 0 && idx + merges <= count
      modifies this`count, allocs
      ensures Shaped() && Table() == Replaced(old(Table()), idx, merges, r)
    {
      ghost var t := Table();
      hide Replaced;
      if merges > 1 {
        forall i | idx + 1 <= i < count - merges + 1 {
          allocs[i] := allocs[i + merges - 1];
        }
        count := count - (merges - 1);
      }
      allocs[idx] := r;
      forall i | 0 <= i < count
        ensures allocs[i] == if i < idx then t[i] else if i == idx then r else t[i + merges - 1]
      {}
      ReplacedIs(t, Table(), idx, merges, r);
    }

    /** True exactly when the range shares no address with the table. */
    method IsFreeMem(base: U64, len: U64) returns (r: bool)
      requires Shaped() && Merged(Table()) && InSpace(base, len)
      ensures r <==> Free(Table(), base, len)
      ensures !r ==> count > 0
    {
      ghost var t := Table();
      var i := 0;
      while i < count
        invariant 0 <= i <= count
        invariant forall j, x: int :: 0 <= j < i && InRange(x, base, len) ==> !InRange(x, t[j].base, t[j].len)
      {
        if IsOverlap(base, len, allocs[i].base, allocs[i].len) {
          ghost var x: int :| InRange(x, base, len) && InRange(x, t[i].base, t[i].len);
          assert Covers(t, x);
          return false;
        }
        i := i + 1;
      }
      return true;
    }

    /** First fit: the lowest candidate, and failure only when there is none. */
    method FindFreeMem(size: U64, align: U64, low: bool) returns (st: Status, addr: U64)
      requires Shaped() && Merged(Table()) && size > 0 && align > 0
      ensures st == Success || st == OutOfResources
      ensures st == Success ==> Candidate(Table(), size, align, low, addr) && InSpace(addr, size) && count > 0
      ensures st == Success ==> NoneBelow(Table(), size, align, low, addr)
      ensures st == OutOfResources ==> NoCandidate(Table(), size, align, low)
    {
      ghost var t := Table();
      var holeBase: U64 := 0;
      var i := 0;
      addr := 0;
      NothingBelowZero(t, size, align, low);
      hide Merged, Candidate, IsRoundUp, NoneBelow, NoCandidate, RoundUp64;
      while i < count
        invariant 0 <= i <= count
        invariant i < count ==> holeBase == HoleStart(t, i)
        invariant NoneBelow(t, size, align, low, HoleStart(t, i))
      {
        var holeLen := SubU64(allocs[i].base, holeBase);
        ghost var r := RoundUpValue(holeBase, align);
        HoleVerdict(t, i, size, align, low, r);
        if holeLen >= size {
          var aligned := RoundUp64(holeBase, align);
          if aligned < holeBase { break; }
          var padding := SubU64(aligned, holeBase);
          if AddU64(size, padding) < size { break; }
          if low && AddU64(aligned, size) > MAX_32_BIT_ADDR { break; }
          if AddU64(padding, size) <= holeLen {
            return Success, aligned;
          }
        }
        holeBase := AddU64(allocs[i].base, allocs[i].len);
        i := i + 1;
      }
      if i == count { NothingPastTheEnd(t, size, align, low); }
      return OutOfResources, 0;
    }

    /** Passes exactly the non-empty tables that are in order; anything else stops the machine. */
    method SanityCheck() returns (st: Status)
      requires Shaped()
      ensures st == if count > 0 && Ordered(Table(), count) then Success else Halted
    {
      if count < 1 { return Halted; }
      var error := false;
      var maxLimit: U64 := 0;
      ghost var t := Table();
      var i := 0;
      while i < count
        invariant 0 <= i <= count
        invariant !error <==> Ordered(t, i) && (0 < i < count ==> t[i - 1].End() < SPACE)
        invariant !error ==> maxLimit == if i == 0 then 0 else t[i - 1].End() - 1
      {
        assert Ordered(t, i + 1) <==> Ordered(t, i) && InOrder(t, i);
        var base, len := allocs[i].base, allocs[i].len;
        var limit := SubU64(AddU64(base, len), 1);
        if len == 0 {
          error := true;
        } else if !(i + 1 == count && AddU64(base, len) == 0) && AddU64(base, len) <= base {
          error := true;
        } else if (i > 0 && base <= maxLimit) || limit < maxLimit {
          error := true;
        }
        maxLimit := limit;
        i := i + 1;
      }
      return if error then Halted else Success;
    }

    /** A failed request leaves everything as it was, and stops the machine only when nothing was ever allocated. */
    method GiveUp(st: Status) returns (r: Status)
      requires Valid()
      ensures r == if count == 0 then Halted else st
    {
      if count > 0 { MergedIsOrdered(Table()); }
      r := SanityCheck();
      if r == Success { r := st; }
    }

    method Alloc(addr: U64, size: U64, align: U64, placement: Placement) returns (st: Status, given: U64)
      requires Valid() && align > 0
      requires (placement == Fixed || placement == Force) && size > 0 ==> InSpace(addr, size)
      modifies this, allocs
      ensures Shaped()
      ensures size == 0 ==> st == Success && given == 0 && Table() == old(Table()) && grants == old(grants)
      // a granted request gets the address the rules name, and is written down
      ensures st == Success && size > 0 ==> Chosen(old(Table()), addr, size, align, placement, given)
      ensures st == Success && size > 0 ==> grants == old(grants) + [Grant(given, size, placement == Force)]
      // a request is refused only if no address suits it, or if the table is full and the range would need a new entry
      ensures st != Success ==> forall a: int :: Chosen(old(Table()), addr, size, align, placement, a) ==>
        old(count) == 4096 && !Touches(old(Table()), a, size)
      ensures st == Success && size > 0 && old(count) == 4096 ==> Touches(old(Table()), given, size)
      ensures st != Success ==> given == addr && Table() == old(Table()) && grants == old(grants)
      ensures st == Success && size > 0 && !FillsSpace(old(Table()), given, size) ==>
        forall x: int :: Covers(Table(), x) <==> Covers(old(Table()), x) || InRange(x, given, size)
      // the invariant, except when the last free address is given away
      ensures st == Success && size > 0 && FillsSpace(old(Table()), given, size) ==> Table() == [Range(0, 0)]
      ensures !(st == Success && size > 0 && FillsSpace(old(Table()), given, size)) ==> Valid()
      ensures st != InvalidParameter
      ensures st == Halted <==> size > 0 && old(count) == 0 && Searches(placement)
    {
      hide Merged, Covers, FillsSpace, Touches, Exclusive, Granted, Candidate, NoneBelow, Free;
      var base: U64 := 0;
      if size > 0 {
        if placement == Fixed {
          var free := IsFreeMem(addr, size);
          if !free {
            st := GiveUp(OutOfResources);
            return st, addr;
          }
        }
        if placement == Fixed || placement == Force {
          base := addr;
        } else {
          st, base := FindFreeMem(size, align, placement == Below4G);
          if st != Success {
            st := GiveUp(st);
            return st, addr;
          }
        }
        ChosenOnce(Table(), addr, size, align, placement, base);
        st := AllocAdd(base, size);
        if st != Success {
          st := GiveUp(st);
          return st, addr;
        }
        grants := grants + [Grant(base, size, placement == Force)];
        if !FillsSpace(old(Table()), base, size) {
          RunContinues(old(Table()), old(grants), Table(), grants[|grants| - 1]);
        }
      }
      return Success, base;
    }
  }

  predicate Searches(placement: Placement) {
    placement == Below4G || placement == Anywhere
  }

  /** The address a request is to be given: the one asked for, or the lowest that suits. */
  ghost predicate Chosen(t: seq<Range>, addr: U64, size: U64, align: U64, placement: Placement, a: int)
    requires align > 0
  {
    match placement
    case Force => a == addr
    case Fixed => a == addr && Free(t, addr, size)
    case Below4G => Candidate(t, size, align, true, a) && NoneBelow(t, size, align, true, a)
    case Anywhere => Candidate(t, size, align, false, a) && NoneBelow(t, size, align, false, a)
  }

  /** The rules name at most one address, and a range that was free unless it was forced. */
  lemma ChosenOnce(t: seq<Range>, addr: U64, size: U64, align: U64, placement: Placement, a: int)
    requires align > 0 && Chosen(t, addr, size, align, placement, a)
    ensures forall b: int :: Chosen(t, addr, size, align, placement, b) ==> b == a
    ensures placement == Force || Free(t, a, size)
  {
    hide Candidate;
    if Searches(placement) { CandidateIsFree(t, size, align, placement == Below4G, a); }
  }

  lemma CandidateIsFree(t: seq<Range>, size: U64, align: U64, low: bool, a: int)
    requires align > 0 && Candidate(t, size, align, low, a)
    ensures Free(t, a, size)
  {}

  /** The invariant of the history survives one more grant. */
  lemma RunContinues(t: seq<Range>, gs: seq<Grant>, u: seq<Range>, g: Grant)
    requires (forall x: int :: Covers(t, x) <==> Granted(gs, x)) && Exclusive(gs)
    requires forall x: int :: Covers(u, x) <==> Covers(t, x) || InRange(x, g.base, g.len)
    requires g.forced || Free(t, g.base, g.len)
    ensures forall x: int :: Covers(u, x) <==> Granted(gs + [g], x)
    ensures Exclusive(gs + [g])
  {
    ExclusiveMore(gs, g);
    hide Covers, Granted, Exclusive;
    forall x: int
      ensures Covers(u, x) <==> Granted(gs + [g], x)
    {
      GrantedMore(gs, g, x);
    }
  }

  /** The first n entries are non-empty, inside the address space and in order; neighbours may touch. */
  ghost predicate Ordered(t: seq<Range>, n: nat)
    requires n <= |t|
  {
    forall i :: 0 <= i < n ==> InOrder(t, i)
  }

  ghost predicate InOrder(t: seq<Range>, i: nat)
    requires i < |t|
  {
    InSpace(t[i].base, t[i].len) && (i > 0 ==> t[i - 1].End() <= t[i].base)
  }

  lemma MergedIsOrdered(t: seq<Range>)
    requires Merged(t)
    ensures Ordered(t, |t|)
  {
    forall i | 0 < i < |t|
      ensures t[i - 1].End() <= t[i].base
    {
      var j := i - 1;
      assert t[j].End() < t[i].base;
    }
  }

  /** The table after an insertion that touches no entry. */
  lemma InsertedRange(t: seq<Range>, base: U64, len: U64, idx: nat)
    requires Merged(t) && Positioned(t, base, len, idx, 0)
    ensures !FillsSpace(t, base, len) && !Touches(t, base, len)
    ensures Merged(Replaced(t, idx, 0, Range(base, len)))
    ensures forall x: int :: Covers(Replaced(t, idx, 0, Range(base, len)), x) <==> Covers(t, x) || InRange(x, base, len)
  {
    AddedRange(t, base, len, idx, 0, Range(base, len));
    forall x: int | base - 1 <= x <= base + len
      ensures !Covers(t, x)
    {
    }
    var y := if base > 0 then base - 1 else base + len;
    assert !InRange(y, base, len);
    assert !Covers(t, y);
  }

  /** The end of the merged range, computed in 64 bits. */
  lemma UnionLength(t: seq<Range>, base: U64, len: U64, idx: nat, merges: nat)
    requires Merged(t) && Positioned(t, base, len, idx, merges) && merges > 0
    ensures idx + merges <= |t|
    ensures
      var (lo, hi) := Union(t, base, len, idx, merges);
      var last := t[idx + merges - 1];
      var over := AddU64(base, len) < base || AddU64(last.base, last.len) < last.base;
      var far := if AddU64(base, len) > AddU64(last.base, last.len) then AddU64(base, len)
        else AddU64(last.base, last.len);
      0 <= lo < SPACE && Wrap(hi - lo) == SubU64(if over then 0 else far, lo)
  {
    UnionBounds(t, base, len, idx, merges);
  }

  lemma MergedTouches(t: seq<Range>, base: U64, len: U64, idx: nat)
    requires Merged(t) && InSpace(base, len) && idx < |t| && IsMergeable(base, len, t[idx].base, t[idx].len)
    ensures Touches(t, base, len)
  {
    var x := if base <= t[idx].base then t[idx].base else if t[idx].End() == base then base - 1 else base;
    assert InRange(x, t[idx].base, t[idx].len);
    assert Covers(t, x);
  }

  /** The table after a merge. */
  lemma MergedRange(t: seq<Range>, base: U64, len: U64, idx: nat, merges: nat, r: Range)
    requires Merged(t) && Positioned(t, base, len, idx, merges) && merges > 0
    requires var (lo, hi) := Union(t, base, len, idx, merges); r.base == lo && r.len == Wrap(hi - lo)
    ensures Touches(t, base, len)
    ensures FillsSpace(t, base, len) ==> Replaced(t, idx, merges, r) == [Range(0, 0)]
    ensures !FillsSpace(t, base, len) ==>
      && Merged(Replaced(t, idx, merges, r))
      && forall x: int :: Covers(Replaced(t, idx, merges, r), x) <==> Covers(t, x) || InRange(x, base, len)
  {
    hide FillsSpace, Touches, Merged, Covers, Union;
    MergedTouches(t, base, len, idx);
    FullUnion(t, base, len, idx, merges);
    UnionBounds(t, base, len, idx, merges);
    if !FillsSpace(t, base, len) {
      AddedRange(t, base, len, idx, merges, r);
    }
  }
}
