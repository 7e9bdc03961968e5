/** Memory the map does not offer is taken out of the allocator's reach. */
module Blacklist {
  import opened AddressRanges
  import opened Allocator
  import opened MemoryMap

  // ---------- pages ----------

  function PageStart(x: int): int {
    x - x % PAGE_SIZE
  }

  function PageEnd(x: int): int {
    PageStart(x + PAGE_SIZE - 1)
  }

  function PageAddr(x: U64): U64 {
    PageStart(x)
  }

  function PageAlignUp(x: U64): U64 {
    PageAddr(AddU64(x, PAGE_SIZE - 1))
  }

  ghost predicate SamePage(x: int, y: int) {
    PageStart(x) == PageStart(y)
  }

  lemma PageBounds(x: int)
    ensures PageStart(x) <= x < PageStart(x) + PAGE_SIZE && PageEnd(x + 1) == PageStart(x) + PAGE_SIZE
  {}

  /** A page starts at or before an address exactly when it starts at or before that address's page. */
  lemma PageOrder(x: int, y: int)
    ensures PageStart(x) <= y <==> PageStart(x) <= PageStart(y)
    ensures x < PageStart(y) + PAGE_SIZE <==> PageStart(x) <= PageStart(y)
  {
    var p, q := x / PAGE_SIZE, y / PAGE_SIZE;
    assert PageStart(x) == PAGE_SIZE * p && PageStart(y) == PAGE_SIZE * q;
  }

  /** The pages a non-empty range touches are the ones between its outer page bounds. */
  lemma TouchedPages(base: int, len: int, x: int)
    requires 0 < len
    ensures PageStart(base) <= x < PageEnd(base + len) <==> exists y: int :: InRange(y, base, len) && SamePage(x, y)
  {
    hide PageStart, PageEnd;
    var last := base + len - 1;
    PageBounds(last);
    PageBounds(x);
    PageOrder(base, x);
    PageOrder(x, last);
    PageOrder(x, base);
    PageOrder(last, x);
    if PageStart(base) <= x < PageEnd(base + len) {
      var y := if x < base then base else if x < base + len then x else last;
      assert InRange(y, base, len) && SamePage(x, y);
    }
    forall y: int | InRange(y, base, len) && SamePage(x, y)
      ensures PageStart(base) <= x < PageEnd(base + len)
    {
      PageOrder(base, y);
      PageBounds(y);
      PageOrder(y, last);
    }
  }

  // ---------- what the map offers ----------

  predicate Usable(kind: U32) {
    kind == AVAILABLE || kind == BOOTLOADER
  }

  ghost predicate IsAvailable(s: seq<Entry>, x: int) {
    exists i :: 0 <= i < |s| && InRange(x, s[i].base, s[i].len) && Usable(s[i].kind)
  }

  /** The number of entries before the first empty one. */
  ghost function Handled(s: seq<Entry>): (z: nat)
    ensures z <= |s|
    ensures forall i :: 0 <= i < z ==> s[i].len > 0
    ensures z < |s| ==> s[z].len == 0
  {
    if s == [] || s[0].len == 0 then 0 else 1 + Handled(s[1..])
  }

  ghost function Limit(s: seq<Entry>, z: nat): int
    requires z <= |s|
  {
    if z == 0 then 0 else s[z - 1].End()
  }

  /** Addresses behind the last entry, and those before the end of entry z that no usable entry offers. */
  ghost predicate Unoffered(s: seq<Entry>, z: nat, y: int)
    requires z <= |s| && |s| > 0
  {
    (0 <= y < Limit(s, z) && !IsAvailable(s[..z], y)) || s[|s| - 1].End() <= y < SPACE
  }

  /** x lies in a page that holds such an address. */
  ghost predicate Banned(s: seq<Entry>, z: nat, x: int)
    requires z <= |s| && |s| > 0
  {
    exists y: int :: SamePage(x, y) && Unoffered(s, z, y)
  }

  ghost predicate InPages(base: int, len: int, x: int) {
    len > 0 && PageStart(base) <= x < PageEnd(base + len)
  }

  /** One entry further: its own pages if it is not usable, and those of the hole before it. */
  lemma BannedStep(s: seq<Entry>, z: nat, x: int)
    requires z < |s| && Orderly(s[..z + 1])
    ensures 0 <= Limit(s, z) <= s[z].base
    ensures Banned(s, z + 1, x) <==>
      Banned(s, z, x) || InPages(Limit(s, z), s[z].base - Limit(s, z), x)
        || (!Usable(s[z].kind) && InPages(s[z].base, s[z].len, x))
  {
    var hole := s[z].base - Limit(s, z);
    LimitBelow(s, z);
    forall y: int
      ensures Unoffered(s, z + 1, y) <==>
        Unoffered(s, z, y) || InRange(y, Limit(s, z), hole) || (!Usable(s[z].kind) && InRange(y, s[z].base, s[z].len))
    {
      AvailableStep(s, z, y);
    }
    if hole > 0 { TouchedPages(Limit(s, z), hole, x); }
    TouchedPages(s[z].base, s[z].len, x);
    hide Unoffered;
  }

  lemma LimitBelow(s: seq<Entry>, z: nat)
    requires z < |s| && Orderly(s[..z + 1])
    ensures 0 <= Limit(s, z) <= s[z].base && s[z].len > 0 && s[z].End() <= SPACE
    ensures forall i :: 0 <= i < z ==> s[i].End() <= Limit(s, z)
  {
    var t := s[..z + 1];
    assert InSpace(t[z].base, t[z].len);
    assert z > 0 ==> t[z - 1].End() <= t[z].base;
    forall i | 0 <= i < z
      ensures s[i].End() <= Limit(s, z)
    {
      assert i < z - 1 ==> t[i].End() <= t[z - 1].base;
      assert s[i] == t[i];
    }
  }

  lemma AvailableStep(s: seq<Entry>, z: nat, y: int)
    requires z < |s| && Orderly(s[..z + 1])
    ensures y < Limit(s, z) ==> (IsAvailable(s[..z + 1], y) <==> IsAvailable(s[..z], y))
    ensures y >= Limit(s, z) ==> (IsAvailable(s[..z + 1], y) <==> Usable(s[z].kind) && InRange(y, s[z].base, s[z].len))
  {
    LimitBelow(s, z);
    var t, u := s[..z], s[..z + 1];
    if IsAvailable(t, y) {
      var i :| 0 <= i < z && InRange(y, t[i].base, t[i].len) && Usable(t[i].kind);
      assert u[i] == t[i];
    }
    if IsAvailable(u, y) {
      var i :| 0 <= i < z + 1 && InRange(y, u[i].base, u[i].len) && Usable(u[i].kind);
      if i < z { assert t[i] == u[i]; }
    }
    assert u[z] == s[z];
  }

  /** Without empty entries the ban is the whole complement: every page with an address that is not available. */
  lemma CompleteBan(s: seq<Entry>, x: int)
    requires Orderly(s) && |s| > 0
    ensures Handled(s) == |s|
    ensures Banned(s, Handled(s), x) <==> exists y: int :: 0 <= y < SPACE && SamePage(x, y) && !IsAvailable(s, y)
  {
    AllHandled(s);
    forall y: int
      ensures Unoffered(s, |s|, y) <==> 0 <= y < SPACE && !IsAvailable(s, y)
    {
      UnofferedAll(s, y);
    }
    hide Unoffered, IsAvailable, SamePage, Orderly, Handled;
  }

  lemma AllHandled(s: seq<Entry>)
    requires Orderly(s)
    ensures Handled(s) == |s|
  {
    var z := Handled(s);
    hide Handled;
    assert z == |s| || InSpace(s[z].base, s[z].len);
  }

  lemma UnofferedAll(s: seq<Entry>, y: int)
    requires Orderly(s) && |s| > 0
    ensures Unoffered(s, |s|, y) <==> 0 <= y < SPACE && !IsAvailable(s, y)
  {
    assert s[..|s|] == s;
    LimitBelow(s, |s| - 1);
    hide Orderly;
    assert Limit(s, |s|) == s[|s| - 1].End();
  }

  /**
    Between the last entry handled and the end of the map every address is available or shares a page with a banned
    one.
  */
  ghost predicate NothingHidden(s: seq<Entry>)
    requires |s| > 0
  {
    forall x: int :: Limit(s, Handled(s)) <= x < s[|s| - 1].End() && !IsAvailable(s, x) ==> Banned(s, Handled(s), x)
  }

  /** No address that is not available escapes the ban. */
  ghost predicate BanComplete(s: seq<Entry>)
    requires |s| > 0
  {
    forall x: int :: 0 <= x < SPACE && !IsAvailable(s, x) ==> Banned(s, Handled(s), x)
  }

  lemma AvailablePrefix(s: seq<Entry>, z: nat, x: int)
    requires z <= |s| && IsAvailable(s[..z], x)
    ensures IsAvailable(s, x)
  {
    var i :| 0 <= i < z && InRange(x, s[..z][i].base, s[..z][i].len) && Usable(s[..z][i].kind);
    assert s[..z][i] == s[i];
  }

  lemma LimitRange(s: seq<Entry>)
    requires |s| > 0 && Orderly(s[..Handled(s)])
    ensures 0 <= Limit(s, Handled(s)) <= SPACE
  {
    var z := Handled(s);
    if z > 0 {
      assert s[..z][..z - 1 + 1] == s[..z];
      LimitBelow(s, z - 1);
    }
  }

  /** With or without empty entries: the ban is complete exactly when nothing is hidden behind the first of them. */
  lemma CompleteExactly(s: seq<Entry>)
    requires |s| > 0 && Orderly(s[..Handled(s)]) && s[|s| - 1].End() <= SPACE
    ensures BanComplete(s) <==> NothingHidden(s)
  {
    var z := Handled(s);
    LimitRange(s);
    hide Handled, Limit, IsAvailable, Orderly, SamePage;
    forall x: int | 0 <= x < SPACE && !IsAvailable(s, x) && !(Limit(s, z) <= x < s[|s| - 1].End())
      ensures Banned(s, z, x)
    {
      if IsAvailable(s[..z], x) { AvailablePrefix(s, z, x); }
      OwnPage(x);
      assert Unoffered(s, z, x);
    }
  }

  lemma OwnPage(x: int)
    ensures SamePage(x, x)
  {}

  /** With both bounds between pages that means that everything there is available. */
  lemma CompleteWhenAligned(s: seq<Entry>)
    requires |s| > 0 && Orderly(s[..Handled(s)]) && s[|s| - 1].End() <= SPACE
    requires Limit(s, Handled(s)) % PAGE_SIZE == 0 && s[|s| - 1].End() % PAGE_SIZE == 0
    ensures BanComplete(s) <==> forall x: int :: Limit(s, Handled(s)) <= x < s[|s| - 1].End() ==> IsAvailable(s, x)
  {
    var z := Handled(s);
    CompleteExactly(s);
    hide Handled, Limit, IsAvailable, Orderly;
    forall x: int | Limit(s, z) <= x < s[|s| - 1].End()
      ensures !Banned(s, z, x)
    {
      forall y: int | SamePage(x, y)
        ensures Limit(s, z) <= y < s[|s| - 1].End()
      {
        PageBetween(Limit(s, z), s[|s| - 1].End(), x, y);
      }
    }
  }

  lemma PageBetween(lo: int, hi: int, x: int, y: int)
    requires lo % PAGE_SIZE == 0 && hi % PAGE_SIZE == 0 && lo <= x < hi && SamePage(x, y)
    ensures lo <= y < hi
  {}

  /** An empty entry hides the ones behind it: their memory stays in reach of the allocator even when reserved. */
  lemma EmptyEntryHidesTheRest()
    ensures exists s: seq<Entry>, x: int ::
      |s| > 0 && Plausible(s) && 0 <= x < SPACE && !IsAvailable(s, x) && !Banned(s, Handled(s), x)
  {
    var s := [Entry(0, 0x1000, AVAILABLE, 0), Entry(0x1000, 0, AVAILABLE, 0), Entry(0x1000, 0x1000, 2, 0)];
    assert s[1..][0] == s[1];
    assert Handled(s) == 1;
    forall y: int | Unoffered(s, 1, y)
      ensures !SamePage(0x1000, y)
    {
      if 0 <= y < 0x1000 { assert s[..1][0] == s[0] && InRange(y, 0, 0x1000); }
    }
    assert !Banned(s, Handled(s), 0x1000);
    assert !IsAvailable(s, 0x1000);
  }

  /**
    A request served once the ban is in force gets available memory only, if the map hides nothing behind an empty
    entry.
  */
  lemma GrantsAreAvailable(s: seq<Entry>, t: seq<Range>, addr: U64, size: U64, align: U64, placement: Placement,
          a: int, x: int)
    requires |s| > 0 && Orderly(s[..Handled(s)]) && s[|s| - 1].End() <= SPACE && NothingHidden(s)
    requires forall y: int :: 0 <= y < SPACE && Banned(s, Handled(s), y) ==> Covers(t, y)
    requires align > 0 && placement != Force && 0 <= a && a + size <= SPACE
    requires Chosen(t, addr, size, align, placement, a) && InRange(x, a, size)
    ensures IsAvailable(s, x)
    ensures exists i ::
      0 <= i < |s| && s[i].base <= x < s[i].base + s[i].len && (s[i].kind == 1 || s[i].kind == 0xffff_ffff)
  {
    CompleteExactly(s);
    assert s[..|s|] == s;
    OfferedSpelled(s, |s|, x);
    hide NothingHidden, Chosen, IsAvailable, Banned;
    ChosenOnce(t, addr, size, align, placement, a);
  }

  /** If it does hide something, a request for just that memory is granted. */
  lemma HiddenIsGranted(s: seq<Entry>, t: seq<Range>)
    requires |s| > 0 && Orderly(s[..Handled(s)]) && s[|s| - 1].End() <= SPACE && !NothingHidden(s)
    requires forall y: int :: Covers(t, y) ==> Banned(s, Handled(s), y)
    ensures exists a: U64 :: !IsAvailable(s, a) && Chosen(t, a, 1, 1, Fixed, a)
  {
    LimitRange(s);
    hide Handled, Limit, IsAvailable, Banned;
    var a: int :| Limit(s, Handled(s)) <= a < s[|s| - 1].End() && !IsAvailable(s, a) && !Banned(s, Handled(s), a);
    assert Chosen(t, a, 1, 1, Fixed, a);
  }

  // ---------- the passes over the map ----------

  /** Bases in order, and no entry past the end of the address space; only the last may reach it. */
  ghost predicate Plausible(s: seq<Entry>) {
    forall i :: 0 <= i < |s| ==> PlausibleAt(s, i)
  }

  ghost predicate PlausibleAt(s: seq<Entry>, i: nat)
    requires i < |s|
  {
    (s[i].End() < SPACE || (i + 1 == |s| && s[i].End() == SPACE)) && (i > 0 ==> s[i - 1].base <= s[i].base)
  }

  /** What is reported as an overlap: an entry that ends before its predecessor, whose end is 2^64 when it is 0. */
  ghost predicate EndsEarly(s: seq<Entry>, i: nat)
    requires 0 < i < |s|
  {
    s[i].len > 0 && s[i].End() < (if s[i - 1].End() == 0 then SPACE else s[i - 1].End())
  }

  /** The tests in 64 bits decide both. */
  lemma CodeTests(s: seq<Entry>, i: nat, before: U64)
    requires i < |s| && (i > 0 ==> before == s[i - 1].base) && (i == 0 ==> before == 0)
    ensures var base, len := s[i].base, s[i].len;
      && SubU64(AddU64(base, len), 1) == Wrap(s[i].End() - 1)
      && (PlausibleAt(s, i) <==>
        ((i + 1 == |s| && AddU64(base, len) == 0) || AddU64(base, len) >= base) && base >= before)
  {}

  lemma EarlyTest(s: seq<Entry>, i: nat)
    requires 0 < i < |s| && PlausibleAt(s, i - 1) && PlausibleAt(s, i)
    ensures EndsEarly(s, i) <==> s[i].len > 0 && Wrap(s[i].End() - 1) < Wrap(s[i - 1].End() - 1)
  {}

  /** Overlaps are only worth a warning. */
  method SanityCheck(a: array<Entry>, n: nat) returns (st: Status, overlap: bool)
    requires n <= a.Length
    ensures st == if Plausible(a[..n]) then Success else InvalidParameter
    ensures st == Success ==> (overlap <==> exists i :: 0 < i < n && EndsEarly(a[..n], i))
  {
    hide PlausibleAt, EndsEarly, Wrap, AddU64, SubU64;
    ghost var s := a[..n];
    var error := false;
    overlap := false;
    var maxBase: U64, maxLimit: U64 := 0, 0;
    var i := 0;
    while i < n
      invariant 0 <= i <= n
      invariant maxBase == if i == 0 then 0 else s[i - 1].base
      invariant maxLimit == if i == 0 then 0 else Wrap(s[i - 1].End() - 1)
      invariant !error <==> forall j :: 0 <= j < i ==> PlausibleAt(s, j)
      invariant !error ==> (overlap <==> exists j :: 0 < j < i && EndsEarly(s, j))
    {
      var base, len := a[i].base, a[i].len;
      var limit := SubU64(AddU64(base, len), 1);
      assert s[i] == a[i];
      CodeTests(s, i, maxBase);
      ghost var was, before := error, overlap;
      if !(i + 1 == n && AddU64(base, len) == 0) && AddU64(base, len) < base {
        error := true;
      } else if base < maxBase {
        error := true;
      }
      if len > 0 && limit < maxLimit { overlap := true; }
      assert error <==> was || !PlausibleAt(s, i);
      if i > 0 && !error {
        assert PlausibleAt(s, i - 1);
        EarlyTest(s, i);
      }
      assert !error ==> (overlap <==> before || (i > 0 && EndsEarly(s, i)));
      maxBase, maxLimit := base, limit;
      i := i + 1;
    }
    st := if error then InvalidParameter else Success;
  }

  /** The rounded range, computed in 64 bits, when it is not the whole address space. */
  lemma PageLength(addr: U64, size: U64, spare: int)
    requires addr + size <= SPACE && (size > 0 || addr % PAGE_SIZE == 0)
    requires 0 <= spare < SPACE && !InPages(addr, size, spare)
    ensures 0 <= addr - PageStart(addr) < PAGE_SIZE
    ensures
      var lo := PageAddr(addr);
      var len := PageAlignUp(AddU64(size, addr - lo));
      && lo + len <= SPACE && (len > 0 <==> size > 0)
      && forall x: int :: InRange(x, lo, len) <==> InPages(addr, size, x)
  {
    PageBounds(addr);
    RoundedUp(size + (addr - PageStart(addr)));
    RoundedEnd(addr, size);
    if size > 0 { assert PageStart(addr) <= spare < PageEnd(addr + size) <==> InPages(addr, size, spare); }
    hide PageStart, PageEnd, PageAlignUp, AddU64;
  }

  /** Rounding up in 64 bits is rounding up, wrapped. */
  lemma RoundedUp(n: nat)
    requires n <= SPACE
    ensures PageAlignUp(Wrap(n)) == Wrap(PageEnd(n))
  {}

  lemma RoundedEnd(addr: U64, size: U64)
    requires addr + size <= SPACE
    ensures PageEnd(addr + size) - PageStart(addr) == PageEnd(size + (addr - PageStart(addr)))
    ensures PageEnd(addr + size) <= SPACE && (size > 0 ==> PageStart(addr) < PageEnd(addr + size))
    ensures addr % PAGE_SIZE == 0 && size == 0 ==> PageStart(addr) == PageEnd(addr + size)
  {}

  lemma {:induction false} BannedMore(s: seq<Entry>, p: nat, z: nat, x: int)
    requires p <= z <= |s| && |s| > 0 && Orderly(s[..z])
    ensures Banned(s, p, x) ==> Banned(s, z, x)
    decreases z - p
  {
    if p < z {
      assert s[..p + 1] == s[..z][..p + 1];
      BannedStep(s, p, x);
      BannedMore(s, p + 1, z, x);
    }
  }

  /** Before any entry is looked at, only the memory behind the last one is banned. */
  lemma TopBan(s: seq<Entry>, x: int)
    requires |s| > 0 && 0 < s[|s| - 1].End() <= SPACE
    ensures Banned(s, 0, x) <==> InPages(s[|s| - 1].End(), SPACE - s[|s| - 1].End(), x)
  {
    var end := s[|s| - 1].End();
    forall y: int
      ensures Unoffered(s, 0, y) <==> InRange(y, end, SPACE - end)
    {
    }
    hide Unoffered;
    if end < SPACE { TouchedPages(end, SPACE - end, x); }
  }

  lemma OrderlyPrefix(s: seq<Entry>, p: nat, z: nat)
    requires p <= z <= |s| && Orderly(s[..z])
    ensures Orderly(s[..p])
  {
    assert s[..p] == s[..z][..p];
  }

  /** Takes the pages a range touches out of circulation, as long as some address stays free. */
  method BlacklistRuntimeMem(t: AllocTable, addr: U64, size: U64, ghost spare: int) returns (st: Status)
    requires t.Valid() && addr + size <= SPACE && (size > 0 || addr % PAGE_SIZE == 0)
    requires 0 <= spare < SPACE && !Covers(t.Table(), spare) && !InPages(addr, size, spare)
    modifies t, t.allocs
    ensures t.Valid() && (st == Success || st == OutOfResources)
    ensures st == Success ==> forall x: int :: Covers(t.Table(), x) <==>
      Covers(old(t.Table()), x) || InPages(addr, size, x)
    ensures st == OutOfResources ==> t.count == MAX_ALLOCS_NR && t.Table() == old(t.Table())
  {
    var pageStart := PageAddr(addr);
    var len := PageAlignUp(AddU64(size, addr - pageStart));
    PageLength(addr, size, spare);
    var given: U64;
    st, given := t.Alloc(pageStart, len, 1, Force);
    assert !FillsSpace(old(t.Table()), pageStart, len);
    assert Chosen(old(t.Table()), pageStart, len, 1, Force, pageStart);
    assert |t.Table()| == t.count && |old(t.Table())| == old(t.count);
  }

  /** The table went from t to u by taking exactly the memory banned after p entries. */
  ghost predicate Took(t: seq<Range>, u: seq<Range>, s: seq<Entry>, p: nat)
    requires p <= |s| && |s| > 0
  {
    forall x: int :: Covers(u, x) <==> Covers(t, x) || Banned(s, p, x)
  }

  /**
    The hole before an entry is right exactly when the entry does not begin before the last one ended; else it wraps.
  */
  lemma HoleWraps(base: U64, addr: U64)
    ensures SubU64(base, addr) > 0 <==> base != addr
    ensures addr + SubU64(base, addr) == base <==> addr <= base
    ensures addr > base ==> addr + SubU64(base, addr) == SPACE + base
  {}

  /** One turn of the walk: the hole before the entry, then the entry itself unless its memory can be used. */
  method BlacklistEntry(t: AllocTable, e: Entry, addr: U64, ghost s: seq<Entry>, ghost p: nat, ghost was: seq<Range>,
          ghost spare: int)
    returns (st: Status, next: U64)
    requires t.Valid() && p < |s| && e == s[p] && Orderly(s[..p + 1])
    requires addr == if p == 0 then 0 else Wrap(s[p - 1].End())
    requires 0 <= spare < SPACE && !Covers(was, spare) && !Banned(s, p + 1, spare)
    requires Took(was, t.Table(), s, p)
    modifies t, t.allocs
    ensures t.Valid() && (st == Success || st == OutOfResources)
    ensures st == Success ==> next == Wrap(e.End())
    ensures st == Success ==> Took(was, t.Table(), s, p + 1)
    ensures st == OutOfResources ==> t.count == MAX_ALLOCS_NR
  {
    LimitBelow(s, p);
    forall x: int
      ensures Banned(s, p + 1, x) <==>
        Banned(s, p, x) || InPages(addr, e.base - addr, x) || (!Usable(e.kind) && InPages(e.base, e.len, x))
    {
      BannedStep(s, p, x);
    }
    hide Banned, InPages, Covers, Orderly;
    st, next := Success, 0;
    if SubU64(e.base, addr) > 0 {
      st := BlacklistRuntimeMem(t, addr, SubU64(e.base, addr), spare);
      if st != Success { return; }
    } else {
      NoPages(addr);
    }
    if !Usable(e.kind) {
      st := BlacklistRuntimeMem(t, e.base, e.len, spare);
      if st != Success { return; }
    }
    next := AddU64(e.base, e.len);
  }

  lemma NoPages(addr: int)
    ensures forall x: int :: !InPages(addr, 0, x)
  {}

  /** Hands everything the map does not offer to the allocator as taken. */
  method ToBlacklist(t: AllocTable, a: array<Entry>, n: nat, ghost spare: int) returns (st: Status)
    requires 0 < n <= a.Length && t.Valid()
    requires Orderly(a[..n][..Handled(a[..n])]) && 0 < a[n - 1].End() <= SPACE
    requires 0 <= spare < SPACE && !Covers(t.Table(), spare) && !Banned(a[..n], Handled(a[..n]), spare)
    modifies t, t.allocs
    ensures t.Valid() && st != Halted
    ensures st == InvalidParameter <==> !Plausible(a[..n])
    ensures st == Success ==> Took(old(t.Table()), t.Table(), a[..n], Handled(a[..n]))
    ensures st == Success ==> forall i, x: int ::
      0 <= i < Handled(a[..n]) && a[..n][i].kind != 1 && a[..n][i].kind != 0xffff_ffff ==>
      a[..n][i].base <= x < a[..n][i].base + a[..n][i].len ==> Covers(t.Table(), x)
    ensures st == OutOfResources ==> t.count == MAX_ALLOCS_NR
  {
    st := HandOver(t, a, n, spare);
    if st == Success { ReservedIsCovered(old(t.Table()), t.Table(), a[..n]); }
  }

  /** Of the entries handled, those of other types than 1 and 0xffffffff are covered. */
  lemma ReservedIsCovered(was: seq<Range>, now: seq<Range>, s: seq<Entry>)
    requires |s| > 0 && Orderly(s[..Handled(s)]) && Took(was, now, s, Handled(s))
    ensures forall i, x: int ::
      0 <= i < Handled(s) && s[i].kind != 1 && s[i].kind != 0xffff_ffff && s[i].base <= x < s[i].base + s[i].len ==>
        Covers(now, x)
  {
    var z := Handled(s);
    forall i, x: int | 0 <= i < z && s[i].kind != 1 && s[i].kind != 0xffff_ffff && s[i].base <= x < s[i].base + s[i].len
      ensures Covers(now, x)
    {
      ReservedIsBanned(s, z, i, x);
    }
  }

  lemma ReservedIsBanned(s: seq<Entry>, z: nat, i: nat, x: int)
    requires i < z <= |s| && |s| > 0 && Orderly(s[..z])
    requires s[i].kind != 1 && s[i].kind != 0xffff_ffff && s[i].base <= x < s[i].base + s[i].len
    ensures Banned(s, z, x)
  {
    var t := s[..z];
    assert t[i] == s[i];
    forall j | 0 <= j < z && j != i
      ensures !InRange(x, t[j].base, t[j].len)
    {
      assert if j < i then t[j].End() <= t[i].base else t[i].End() <= t[j].base;
    }
    assert i < z - 1 ==> t[i].End() <= t[z - 1].base;
    OwnPage(x);
    assert Unoffered(s, z, x);
  }

  /**
    The same in plain numbers, one way: a page of 4096 bytes is covered if it holds an address below the end of the
    last entry handled which no handled entry of type 1 or 0xffffffff offers, or one behind the end of the map.
  */
  lemma CoveredBecause(was: seq<Range>, now: seq<Range>, s: seq<Entry>, z: nat, x: int, y: int)
    requires z <= |s| && |s| > 0 && Took(was, now, s, z) && y / 0x1000 == x / 0x1000
    requires
      || (0 <= y < (if z == 0 then 0 else s[z - 1].base + s[z - 1].len)
        && forall i :: 0 <= i < z && s[i].base <= y < s[i].base + s[i].len ==>
          s[i].kind != 1 && s[i].kind != 0xffff_ffff)
      || s[|s| - 1].base + s[|s| - 1].len <= y < 0x1_0000_0000_0000_0000
    ensures Covers(now, x)
  {
    OfferedSpelled(s, z, y);
    SamePageSpelled(x, y);
    hide IsAvailable, Covers, SamePage;
    assert Unoffered(s, z, y);
  }

  /** And the other way: what is covered only now lies in the page of such an address. */
  lemma OnlyBecause(was: seq<Range>, now: seq<Range>, s: seq<Entry>, z: nat, x: int) returns (y: int)
    requires z <= |s| && |s| > 0 && Took(was, now, s, z) && Covers(now, x) && !Covers(was, x)
    ensures y / 0x1000 == x / 0x1000
    ensures
      || (0 <= y < (if z == 0 then 0 else s[z - 1].base + s[z - 1].len)
        && forall i :: 0 <= i < z && s[i].base <= y < s[i].base + s[i].len ==>
          s[i].kind != 1 && s[i].kind != 0xffff_ffff)
      || s[|s| - 1].base + s[|s| - 1].len <= y < 0x1_0000_0000_0000_0000
  {
    hide IsAvailable, Covers, SamePage;
    assert Banned(s, z, x);
    y :| SamePage(x, y) && Unoffered(s, z, y);
    OfferedSpelled(s, z, y);
    SamePageSpelled(x, y);
  }

  lemma SamePageSpelled(x: int, y: int)
    ensures SamePage(x, y) <==> y / 0x1000 == x / 0x1000
  {}

  lemma OfferedSpelled(s: seq<Entry>, z: nat, y: int)
    requires z <= |s|
    ensures IsAvailable(s[..z], y) <==> exists i ::
      0 <= i < z && s[i].base <= y < s[i].base + s[i].len && (s[i].kind == 1 || s[i].kind == 0xffff_ffff)
  {
    var t := s[..z];
    if IsAvailable(t, y) {
      var i :| 0 <= i < z && InRange(y, t[i].base, t[i].len) && Usable(t[i].kind);
      assert s[i] == t[i];
    }
    if i :| 0 <= i < z && s[i].base <= y < s[i].base + s[i].len && (s[i].kind == 1 || s[i].kind == 0xffff_ffff) {
      assert t[i] == s[i];
    }
  }

  method HandOver(t: AllocTable, a: array<Entry>, n: nat, ghost spare: int) returns (st: Status)
    requires 0 < n <= a.Length && t.Valid()
    requires Orderly(a[..n][..Handled(a[..n])]) && 0 < a[n - 1].End() <= SPACE
    requires 0 <= spare < SPACE && !Covers(t.Table(), spare) && !Banned(a[..n], Handled(a[..n]), spare)
    modifies t, t.allocs
    ensures t.Valid() && st != Halted
    ensures st == InvalidParameter <==> !Plausible(a[..n])
    ensures st == Success ==> Took(old(t.Table()), t.Table(), a[..n], Handled(a[..n]))
    ensures st == OutOfResources ==> t.count == MAX_ALLOCS_NR
  {
    hide Banned, Covers, Handled, Orderly, Took, Plausible;
    var overlap;
    st, overlap := SanityCheck(a, n);
    if st != Success { return; }
    st := BlacklistTop(t, a[n - 1], a[..n], spare);
    if st != Success { return; }
    st := BlacklistEntries(t, a, n, a[..n], old(t.Table()), spare);
  }

  /** The walk over the entries; it never gets past an empty one. */
  method BlacklistEntries(t: AllocTable, a: array<Entry>, n: nat, ghost s: seq<Entry>, ghost was: seq<Range>,
          ghost spare: int)
    returns (st: Status)
    requires 0 < n <= a.Length && a[..n] == s && t.Valid()
    requires Orderly(s[..Handled(s)])
    requires 0 <= spare < SPACE && !Covers(was, spare) && !Banned(s, Handled(s), spare)
    requires Took(was, t.Table(), s, 0)
    modifies t, t.allocs
    ensures t.Valid() && (st == Success || st == OutOfResources)
    ensures st == Success ==> Took(was, t.Table(), s, Handled(s))
    ensures st == OutOfResources ==> t.count == MAX_ALLOCS_NR
  {
    ghost var z := Handled(s);
    hide Banned, Covers, Handled, Orderly, Took;
    st := Success;
    var addr: U64 := 0;
    var i, p := 0, 0;
    while i < n
      invariant 0 <= i <= n && p == (if i <= z then i else z) && st == Success
      invariant addr == if p == 0 then 0 else Wrap(s[p - 1].End())
      invariant t.Valid() && a[..n] == s
      invariant Took(was, t.Table(), s, p)
    {
      if a[p].len != 0 {
        OrderlyPrefix(s, p + 1, z);
        BannedMore(s, p + 1, z, spare);
        st, addr := BlacklistEntry(t, a[p], addr, s, p, was, spare);
        if st != Success { return; }
        p := p + 1;
      }
      i := i + 1;
    }
  }

  lemma TopBans(s: seq<Entry>)
    requires |s| > 0 && 0 < s[|s| - 1].End() <= SPACE
    ensures var end := s[|s| - 1].End(); forall x: int :: Banned(s, 0, x) <==> InPages(end, SPACE - end, x)
  {
    var end := s[|s| - 1].End();
    forall x: int
      ensures Banned(s, 0, x) <==> InPages(end, SPACE - end, x)
    {
      TopBan(s, x);
    }
  }

  /** The memory behind the last entry. */
  method BlacklistTop(t: AllocTable, last: Entry, ghost s: seq<Entry>, ghost spare: int) returns (st: Status)
    requires t.Valid() && |s| > 0 && last == s[|s| - 1] && 0 < last.End() <= SPACE
    requires 0 <= spare < SPACE && !Covers(t.Table(), spare)
    requires Orderly(s[..Handled(s)]) && !Banned(s, Handled(s), spare)
    modifies t, t.allocs
    ensures t.Valid() && (st == Success || st == OutOfResources)
    ensures st == Success ==> Took(old(t.Table()), t.Table(), s, 0)
    ensures st == OutOfResources ==> t.count == MAX_ALLOCS_NR
  {
    hide Banned, InPages, Covers, Handled, Orderly, Took;
    ghost var end := last.End();
    BannedMore(s, 0, Handled(s), spare);
    TopBans(s);
    var addr := SubU64(AddU64(last.base, last.len), 1);
    TopRange(last, addr);
    ghost var was := t.Table();
    st := BlacklistRuntimeMem(t, AddU64(addr, 1), SubU64(SPACE - 1, addr), spare);
    if st == Success { TookTop(was, t.Table(), s, end); }
  }

  /** The range behind the last entry, in 64 bits; there is none when the entry reaches the end of the space. */
  lemma TopRange(last: Entry, addr: U64)
    requires 0 < last.End() <= SPACE && addr == SubU64(AddU64(last.base, last.len), 1)
    ensures
      var from, size := AddU64(addr, 1), SubU64(SPACE - 1, addr);
      && from + size <= SPACE && (size > 0 || from % PAGE_SIZE == 0)
      && forall x: int :: InPages(from, size, x) <==> InPages(last.End(), SPACE - last.End(), x)
  {
    hide InPages, AddU64, SubU64;
    TopEnds(last, addr);
    NoPages(0);
    NoPages(last.End());
    assert 0 % PAGE_SIZE == 0;
  }

  lemma TopEnds(last: Entry, addr: U64)
    requires 0 < last.End() <= SPACE && addr == SubU64(AddU64(last.base, last.len), 1)
    ensures AddU64(addr, 1) == if last.End() == SPACE then 0 else last.End()
    ensures SubU64(SPACE - 1, addr) == SPACE - last.End()
  {
    hide Wrap;
  }

  lemma TookTop(t: seq<Range>, u: seq<Range>, s: seq<Entry>, end: int)
    requires |s| > 0 && forall x: int :: Banned(s, 0, x) <==> InPages(end, SPACE - end, x)
    requires forall x: int :: Covers(u, x) <==> Covers(t, x) || InPages(end, SPACE - end, x)
    ensures Took(t, u, s, 0)
  {
    hide Covers, Banned, InPages;
  }
}
