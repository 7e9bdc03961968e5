/** 64-bit address ranges and the two range tests shared by the allocator and the memory map. */
module AddressRanges {

  const SPACE: int := 0x1_0000_0000_0000_0000

  type U64 = x: int | 0 <= x < SPACE

  function Wrap(x: int): U64 {
    x % SPACE
  }

  function AddU64(x: U64, y: U64): (r: U64)
    ensures r == if x + y < SPACE then x + y else x + y - SPACE
  {
    Wrap(x + y)
  }

  function SubU64(x: U64, y: U64): (r: U64)
    ensures r == if x >= y then x - y else x - y + SPACE
  {
    Wrap(x - y)
  }

  /** A non-empty range that does not run past the address space. */
  predicate InSpace(base: U64, len: U64) {
    0 < len && base + len <= SPACE
  }

  predicate InRange(x: int, base: int, len: int) {
    base <= x < base + len
  }

  /** Two ranges that overlap or are contiguous. A range whose end wraps reaches the top of the space. */
  function IsMergeable(a1: U64, l1: U64, a2: U64, l2: U64): (r: bool)
    ensures InSpace(a1, l1) && InSpace(a2, l2) ==> (r <==> a1 <= a2 + l2 && a2 <= a1 + l1)
  {
    var (lo, len, hi) := if a2 < a1 then (a2, l2, a1) else (a1, l1, a2);
    if AddU64(lo, len) < lo then true else hi <= AddU64(lo, len)
  }

  /** Two ranges that share an address. */
  function IsOverlap(a1: U64, l1: U64, a2: U64, l2: U64): (r: bool)
    ensures InSpace(a1, l1) && InSpace(a2, l2) ==> (r <==> exists x: int :: InRange(x, a1, l1) && InRange(x, a2, l2))
  {
    var (lo, len, hi) := if a2 < a1 then (a2, l2, a1) else (a1, l1, a2);
    var r := if AddU64(lo, len) < lo then true else hi < AddU64(lo, len);
    assert InSpace(a1, l1) && InSpace(a2, l2) && r ==> InRange(hi, a1, l1) && InRange(hi, a2, l2);
    r
  }
}
