/** In-place bubble sort. */
module Sorting {

  /** The elements with a given key, in their order of appearance. */
  ghost function WithKey<T>(s: seq<T>, key: T -> int, k: int): seq<T> {
    if s == [] then [] else (if key(s[0]) == k then [s[0]] else []) + WithKey(s[1..], key, k)
  }

  lemma {:induction false} WithKeyConcat<T>(s: seq<T>, t: seq<T>, key: T -> int, k: int)
    ensures WithKey(s + t, key, k) == WithKey(s, key, k) + WithKey(t, key, k)
  {
    if s == [] {
      assert s + t == t;
    } else {
      var h := if key(s[0]) == k then [s[0]] else [];
      calc {
        WithKey(s + t, key, k);
      ==  { assert (s + t)[0] == s[0] && (s + t)[1..] == s[1..] + t; }
        h + WithKey(s[1..] + t, key, k);
      ==  { WithKeyConcat(s[1..], t, key, k); }
        h + (WithKey(s[1..], key, k) + WithKey(t, key, k));
      ==
        WithKey(s, key, k) + WithKey(t, key, k);
      }
    }
  }

  /** How many elements have a smaller key than x. */
  ghost function Below<T>(x: T, s: seq<T>, key: T -> int): nat {
    if s == [] then 0 else (if key(s[0]) < key(x) then 1 else 0) + Below(x, s[1..], key)
  }

  lemma {:induction false} BelowConcat<T>(x: T, s: seq<T>, t: seq<T>, key: T -> int)
    ensures Below(x, s + t, key) == Below(x, s, key) + Below(x, t, key)
  {
    if s == [] {
      assert s + t == t;
    } else {
      assert (s + t)[1..] == s[1..] + t;
      BelowConcat(x, s[1..], t, key);
    }
  }

  /** The number of pairs that stand in the wrong order. */
  ghost function Inversions<T>(s: seq<T>, key: T -> int): nat {
    if s == [] then 0 else Below(s[0], s[1..], key) + Inversions(s[1..], key)
  }

  ghost predicate SortedBy<T>(s: seq<T>, key: T -> int) {
    forall i, j :: 0 <= i < j < |s| ==> key(s[i]) <= key(s[j])
  }

  lemma Pair<T>(x: T, y: T, z: T, key: T -> int)
    ensures Below(z, [x, y], key) == (if key(x) < key(z) then 1 else 0) + (if key(y) < key(z) then 1 else 0)
    ensures forall k :: WithKey([x, y], key, k) == (if key(x) == k then [x] else []) + (if key(y) == k then [y] else [])
  {
    assert [x, y][1..] == [y];
    assert Below(z, [y], key) == if key(y) < key(z) then 1 else 0;
    forall k
      ensures WithKey([x, y], key, k) == (if key(x) == k then [x] else []) + (if key(y) == k then [y] else [])
    {
      assert WithKey([y], key, k) == if key(y) == k then [y] else [];
    }
  }

  /** Swapping two neighbours in the wrong order removes exactly one inversion. */
  lemma {:induction false} SwapInversions<T>(p: seq<T>, x: T, y: T, q: seq<T>, key: T -> int)
    requires key(y) < key(x)
    ensures Inversions(p + [x, y] + q, key) == Inversions(p + [y, x] + q, key) + 1
  {
    if p == [] {
      assert p + [x, y] + q == [x] + ([y] + q);
      assert p + [y, x] + q == [y] + ([x] + q);
      assert ([x] + ([y] + q))[1..] == [y] + q && ([y] + ([x] + q))[1..] == [x] + q;
      assert ([y] + q)[1..] == q && ([x] + q)[1..] == q;
      assert Inversions(p + [x, y] + q, key) == Below(x, [y] + q, key) + Inversions([y] + q, key);
      assert Inversions(p + [y, x] + q, key) == Below(y, [x] + q, key) + Inversions([x] + q, key);
    } else {
      var s, t := p + [x, y] + q, p + [y, x] + q;
      assert s[1..] == p[1..] + [x, y] + q && t[1..] == p[1..] + [y, x] + q;
      SwapInversions(p[1..], x, y, q, key);
      SwapBelow(p[0], p[1..], x, y, q, key);
    }
  }

  lemma SwapBelow<T>(z: T, p: seq<T>, x: T, y: T, q: seq<T>, key: T -> int)
    ensures Below(z, p + [x, y] + q, key) == Below(z, p + [y, x] + q, key)
  {
    BelowConcat(z, p + [x, y], q, key);
    BelowConcat(z, p + [y, x], q, key);
    BelowConcat(z, p, [x, y], key);
    BelowConcat(z, p, [y, x], key);
    Pair(x, y, z, key);
    Pair(y, x, z, key);
  }

  /** Swapping two neighbours with different keys leaves the order among equal keys alone. */
  lemma SwapIsStable<T>(p: seq<T>, x: T, y: T, q: seq<T>, key: T -> int, k: int)
    requires key(x) != key(y)
    ensures WithKey(p + [x, y] + q, key, k) == WithKey(p + [y, x] + q, key, k)
  {
    WithKeyConcat(p + [x, y], q, key, k);
    WithKeyConcat(p + [y, x], q, key, k);
    WithKeyConcat(p, [x, y], key, k);
    WithKeyConcat(p, [y, x], key, k);
    Pair(x, y, x, key);
    Pair(y, x, x, key);
  }

  /** One is a rearrangement of the other that keeps elements with equal keys in order. */
  ghost predicate StableRearrangement<T>(s: seq<T>, t: seq<T>, key: T -> int) {
    && |s| == |t| && multiset(s) == multiset(t)
    && forall k :: WithKey(s, key, k) == WithKey(t, key, k)
  }

  lemma SwapRearranges<T>(s: seq<T>, t: seq<T>, i: nat, key: T -> int)
    requires i + 1 < |s| && key(s[i + 1]) < key(s[i])
    requires t == s[i := s[i + 1]][i + 1 := s[i]]
    ensures StableRearrangement(s, t, key)
    ensures Inversions(s, key) == Inversions(t, key) + 1
  {
    var p, x, y, q := s[..i], s[i], s[i + 1], s[i + 2..];
    assert s == p + [x, y] + q && t == p + [y, x] + q;
    SwapInversions(p, x, y, q, key);
    forall k
      ensures WithKey(s, key, k) == WithKey(t, key, k)
    {
      SwapIsStable(p, x, y, q, key, k);
    }
    assert multiset([x, y]) == multiset([y, x]);
  }

  lemma TailWithKey<T>(s: seq<T>, key: T -> int, k: int)
    requires s != []
    ensures key(s[0]) == k ==> WithKey(s, key, k) != []
    ensures WithKey(s[1..], key, k) == if key(s[0]) == k then WithKey(s, key, k)[1..] else WithKey(s, key, k)
  {}

  lemma HeadCounts<T>(s: seq<T>, key: T -> int)
    requires s != []
    ensures WithKey(s, key, key(s[0])) != []
  {}

  /** There is only one way to sort stably: a sorted stable rearrangement is determined by its input. */
  lemma {:induction false} StableSortIsUnique<T>(s: seq<T>, t: seq<T>, key: T -> int)
    requires SortedBy(s, key) && SortedBy(t, key)
    requires forall k :: WithKey(s, key, k) == WithKey(t, key, k)
    ensures s == t
  {
    if s == [] {
      if t != [] { HeadCounts(t, key); }
    } else {
      assert WithKey(s, key, key(s[0])) == WithKey(t, key, key(s[0])) != [];
      FirstHolds(t, key, key(s[0]));
      assert WithKey(t, key, key(t[0])) == WithKey(s, key, key(t[0])) != [];
      FirstHolds(s, key, key(t[0]));
      assert key(s[0]) == key(t[0]);
      assert WithKey(s, key, key(s[0]))[0] == s[0] && WithKey(t, key, key(s[0]))[0] == t[0];
      forall k
        ensures WithKey(s[1..], key, k) == WithKey(t[1..], key, k)
      {
        assert WithKey(s, key, k) == WithKey(t, key, k);
        TailWithKey(s, key, k);
        TailWithKey(t, key, k);
      }
      StableSortIsUnique(s[1..], t[1..], key);
      assert s == [s[0]] + s[1..] && t == [t[0]] + t[1..];
    }
  }

  /** A key that occurs in a sorted sequence is at least the first key. */
  lemma {:induction false} FirstHolds<T>(s: seq<T>, key: T -> int, k: int)
    requires SortedBy(s, key) && WithKey(s, key, k) != []
    ensures s != [] && key(s[0]) <= k
  {
    if s != [] && key(s[0]) != k {
      FirstHolds(s[1..], key, k);
      assert key(s[0]) <= key(s[1]);
    }
  }

  /** One pass: every pair of neighbours in turn is put in order. */
  method Pass<T(!new)>(a: array<T>, n: nat, compar: (T, T) -> int, ghost key: T -> int, ghost was: seq<T>)
    returns (swapped: bool)
    requires 1 < n <= a.Length && StableRearrangement(was, a[..n], key)
    requires forall x, y :: compar(x, y) > 0 <==> key(x) > key(y)
    modifies a
    ensures !swapped ==> a[..n] == old(a[..n]) && forall k :: 0 <= k < n - 1 ==> key(a[k]) <= key(a[k + 1])
    ensures swapped ==> Inversions(a[..n], key) < Inversions(old(a[..n]), key)
    ensures StableRearrangement(was, a[..n], key) && a[n..] == old(a[n..])
  {
    swapped := false;
    var i := 0;
    while i < n - 1
      invariant 0 <= i <= n - 1
      invariant !swapped ==> a[..n] == old(a[..n]) && forall k :: 0 <= k < i ==> key(a[k]) <= key(a[k + 1])
      invariant swapped ==> Inversions(a[..n], key) < Inversions(old(a[..n]), key)
      invariant StableRearrangement(was, a[..n], key) && a[n..] == old(a[n..])
    {
      if compar(a[i], a[i + 1]) > 0 {
        ghost var s := a[..n];
        a[i], a[i + 1] := a[i + 1], a[i];
        SwapRearranges(s, a[..n], i, key);
        swapped := true;
      }
      i := i + 1;
    }
  }

  /** Sorts the first n elements; passes repeat until one swaps nothing. */
  method BubbleSort<T(!new)>(a: array<T>, n: nat, compar: (T, T) -> int, ghost key: T -> int)
    requires n <= a.Length
    requires forall x, y :: compar(x, y) > 0 <==> key(x) > key(y)
    modifies a
    ensures SortedBy(a[..n], key)
    ensures StableRearrangement(old(a[..n]), a[..n], key)
    ensures a[n..] == old(a[n..])
  {
    if n > 1 {
      var swapped := true;
      while swapped
        invariant !swapped ==> forall k :: 0 <= k < n - 1 ==> key(a[k]) <= key(a[k + 1])
        invariant StableRearrangement(old(a[..n]), a[..n], key)
        invariant a[n..] == old(a[n..])
        decreases Inversions(a[..n], key), swapped
      {
        swapped := Pass(a, n, compar, key, old(a[..n]));
      }
      NeighboursSuffice(a[..n], key);
    }
  }

  lemma NeighboursSuffice<T>(s: seq<T>, key: T -> int)
    requires forall k :: 0 <= k < |s| - 1 ==> key(s[k]) <= key(s[k + 1])
    ensures SortedBy(s, key)
  {
    forall i, j | 0 <= i < j < |s|
      ensures key(s[i]) <= key(s[j])
    {
      Climb(s, key, i, j);
    }
  }

  lemma {:induction false} Climb<T>(s: seq<T>, key: T -> int, i: nat, j: nat)
    requires forall k :: 0 <= k < |s| - 1 ==> key(s[k]) <= key(s[k + 1])
    requires i <= j < |s|
    ensures key(s[i]) <= key(s[j])
    decreases j - i
  {
    if i < j {
      Climb(s, key, i, j - 1);
      var k := j - 1;
      assert key(s[k]) <= key(s[k + 1]);
    }
  }
}
