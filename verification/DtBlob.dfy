/** A flattened device tree in its buffer: header fields, reserve map, structure block, strings block, and splicing. */
module DtBlob {
  import opened DtFormat
  import opened DtTree
  import opened DtEvents

  ghost predicate NameHere(strs: seq<Byte>, i: nat, s: seq<Byte>) {
    i + |s| + 1 <= |strs| && strs[i..i + |s| + 1] == s + [0]
  }

  /** Some stretch of the strings is the name with its zero byte. */
  ghost predicate Listed(strs: seq<Byte>, s: seq<Byte>) {
    exists i :: 0 <= i < |strs| && NameHere(strs, i, s)
  }

  /** The room a name takes in the strings block. */
  ghost function NameRoom(strs: seq<Byte>, s: seq<Byte>): nat {
    if Listed(strs, s) then 0 else |s| + 1
  }

  lemma Slice(b: seq<Byte>, x: nat, y: nat, i: nat, j: nat)
    requires x <= y <= |b| && i <= j <= y - x
    ensures b[x..y][i..j] == b[x + i..x + j]
  {
    forall k | 0 <= k < j - i
      ensures b[x..y][i..j][k] == b[x + i..x + j][k]
    {
    }
  }

  /** What a splice in the middle block does to the three blocks; the gap behind the middle block moves along. */
  lemma SpliceFront(was: seq<Byte>, now: seq<Byte>, x: nat, o: nat, o2: nat)
    requires o <= o2 && x + o2 <= |was| == |now| && now[..x + o2] == was[..x + o2]
    ensures now[..x] == was[..x] && now[x..x + o] == was[x..x + o]
  {
    Slice(now, 0, x + o2, x, x + o);
    Slice(was, 0, x + o2, x, x + o);
    Slice(now, 0, x + o2, 0, x);
    Slice(was, 0, x + o2, 0, x);
  }

  /** Equal stretches at different places have equal parts at corresponding places. */
  lemma SpliceBack(was: seq<Byte>, now: seq<Byte>, from: nat, end: nat, from2: nat, end2: nat, i: nat, j: nat, i2: nat,
          j2: nat)
    requires from <= i <= j <= end <= |was| && from2 <= i2 <= j2 <= end2 <= |now|
    requires i2 - from2 == i - from && j2 - from2 == j - from && end2 - from2 == end - from
    requires now[from2..end2] == was[from..end]
    ensures now[i2..j2] == was[i..j]
  {
    Slice(now, from2, end2, i - from, j - from);
    Slice(was, from, end, i - from, j - from);
  }

  lemma ThreeParts(s: seq<Byte>, i: nat, j: nat)
    requires i <= j <= |s|
    ensures s == s[..i] + s[i..j] + s[j..]
  {}

  lemma SpliceMiddle(was: seq<Byte>, now: seq<Byte>, x: nat, size: nat, size2: nat, o: nat, o1: nat, o2: nat)
    requires o <= o1 <= size && o <= o2 <= size2 && x + size <= |was| && x + size2 <= |now| && size2 - o2 == size - o1
    requires now[x..x + o] == was[x..x + o]
    requires now[x + o2..x + size2] == was[x + o1..x + size]
    ensures
      var n, w := now[x..x + size2], was[x..x + size];
      n == w[..o] + n[o..o2] + w[o1..]
  {
    var n, w := now[x..x + size2], was[x..x + size];
    Slice(now, x, x + size2, 0, o);
    Slice(was, x, x + size, 0, o);
    Slice(now, x, x + size2, o2, size2);
    Slice(was, x, x + size, o1, size);
    ThreeParts(n, o, o2);
  }

  ghost function Part(b: seq<Byte>, x: nat, n: nat): (r: seq<Byte>)
    requires x + n <= |b|
    ensures |r| == n
  {
    b[x..x + n]
  }

  /** Everything behind the old bytes moves behind the new ones; nothing else is written. */
  ghost predicate Moved(was: seq<Byte>, now: seq<Byte>, point: nat, oldlen: nat, newlen: nat, dsize: nat) {
    && point + oldlen <= dsize <= |was| == |now| && dsize - oldlen + newlen <= |was|
    && now[..point + newlen] == was[..point + newlen]
    && now[point + newlen..dsize - oldlen + newlen] == was[point + oldlen..dsize]
  }

  /** New bytes in place of old ones. The old bytes stay as far as there is room, the rest is left open. */
  ghost predicate Spliced(w: seq<Byte>, n: seq<Byte>, o: nat, oldlen: nat, newlen: nat) {
    && o + oldlen <= |w| && o + newlen <= |n|
    && n == w[..o] + n[o..o + newlen] + w[o + oldlen..]
    && n[o..o + Least(oldlen, newlen)] == w[o..o + Least(oldlen, newlen)]
  }

  ghost predicate Written(s: seq<Byte>, t: seq<Byte>, o: nat, data: seq<Byte>) {
    o + |data| <= |s| && t == s[..o] + data + s[o + |data|..]
  }

  function Least(x: nat, y: nat): (m: nat)
    ensures m <= x && m <= y
  {
    if x < y then x else y
  }

  /** What a splice in the middle block does to the three blocks; the gap behind the middle block moves along. */
  lemma SpliceBlocks(was: seq<Byte>, now: seq<Byte>, x: nat, size: nat, size2: nat, y: nat, y2: nat, strs: nat, o: nat,
          oldlen: nat, newlen: nat)
    requires x + size <= y && o + oldlen <= size && size2 == size - oldlen + newlen && y2 == y - oldlen + newlen
    requires Moved(was, now, x + o, oldlen, newlen, y + strs)
    ensures x + size2 <= y2 && y2 + strs <= |now|
    ensures Part(now, 0, x) == Part(was, 0, x) && Part(now, y2, strs) == Part(was, y, strs)
    ensures Spliced(Part(was, x, size), Part(now, x, size2), o, oldlen, newlen)
  {
    hide *;
    MovedFacts(was, now, x, o, oldlen, newlen, y + strs, y2 + strs);
    var o1, o2, m := o + oldlen, o + newlen, Least(oldlen, newlen);
    SpliceFront(was, now, x, o, o + newlen);
    SpliceFront(was, now, x, o + m, o + newlen);
    KeptStart(was, now, x, size, size2, o, m);
    SpliceBack(was, now, x + o1, y + strs, x + o2, y2 + strs, y, y + strs, y2, y2 + strs);
    SpliceBack(was, now, x + o1, y + strs, x + o2, y2 + strs, x + o1, x + size, x + o2, x + size2);
    SpliceMiddle(was, now, x, size, size2, o, o1, o2);
    PartIs(was, now, x, size, size2, y, y2, strs);
    SplicedIs(was[x..x + size], now[x..x + size2], o, oldlen, newlen);
  }

  lemma MovedFacts(was: seq<Byte>, now: seq<Byte>, x: nat, o: nat, oldlen: nat, newlen: nat, end: nat, end2: nat)
    requires Moved(was, now, x + o, oldlen, newlen, end) && end2 == end - oldlen + newlen
    ensures x + o + oldlen <= end <= |was| == |now| && end2 <= |now|
    ensures now[..x + (o + newlen)] == was[..x + (o + newlen)]
    ensures now[x + (o + newlen)..end2] == was[x + (o + oldlen)..end]
  {
    assert x + o + newlen == x + (o + newlen) && x + o + oldlen == x + (o + oldlen);
  }

  lemma KeptStart(was: seq<Byte>, now: seq<Byte>, x: nat, size: nat, size2: nat, o: nat, m: nat)
    requires x + size <= |was| && x + size2 <= |now| && o + m <= size && o + m <= size2
    requires now[x..x + (o + m)] == was[x..x + (o + m)]
    ensures now[x..x + size2][o..o + m] == was[x..x + size][o..o + m]
  {
    Slice(now, x, x + size2, o, o + m);
    Slice(was, x, x + size, o, o + m);
    Slice(now, x, x + (o + m), o, o + m);
    Slice(was, x, x + (o + m), o, o + m);
  }

  lemma PartIs(was: seq<Byte>, now: seq<Byte>, x: nat, size: nat, size2: nat, y: nat, y2: nat, strs: nat)
    requires x + size <= |was| && x + size2 <= |now| && y + strs <= |was| && y2 + strs <= |now|
    ensures Part(now, 0, x) == now[..x] && Part(was, 0, x) == was[..x]
    ensures Part(now, x, size2) == now[x..x + size2] && Part(was, x, size) == was[x..x + size]
    ensures Part(now, y2, strs) == now[y2..y2 + strs] && Part(was, y, strs) == was[y..y + strs]
  {}

  lemma SplicedIs(w: seq<Byte>, n: seq<Byte>, o: nat, oldlen: nat, newlen: nat)
    requires o + oldlen <= |w| && o + newlen <= |n| && n == w[..o] + n[o..o + newlen] + w[o + oldlen..]
    requires n[o..o + Least(oldlen, newlen)] == w[o..o + Least(oldlen, newlen)]
    ensures Spliced(w, n, o, oldlen, newlen)
  {}

  lemma FirstPart(b: seq<Byte>, x: nat, n: nat, m: nat)
    requires m <= n && x + n <= |b|
    ensures Part(b, x, n)[..m] == Part(b, x, m)
  {
    Slice(b, x, x + n, 0, m);
  }

  lemma MovedBack(was: seq<Byte>, now: seq<Byte>, dsize: nat, newlen: nat, x: nat, n: nat)
    requires Moved(was, now, dsize, 0, newlen, dsize) && x + n <= dsize
    ensures Part(now, x, n) == Part(was, x, n)
  {
    Slice(now, 0, dsize + newlen, x, x + n);
    Slice(was, 0, dsize + newlen, x, x + n);
  }

  lemma NameFound(b: seq<Byte>, x: nat, n: nat, o: nat, s: seq<Byte>)
    requires x + n <= |b| && o + |s| + 1 <= n && 0 !in s && b[x + o..x + o + (|s| + 1)] == s + [0]
    ensures HasString(Part(b, x, n), o) && StringAt(Part(b, x, n), o) == s
  {
    var strs := Part(b, x, n);
    Slice(b, x, x + n, o, o + (|s| + 1));
    assert strs[o..o + (|s| + 1)] == s + [0];
    assert strs[o..o + |s|] == strs[o..o + (|s| + 1)][..|s|] == s;
    assert strs[o + |s|] == strs[o..o + (|s| + 1)][|s|];
    NulFound(strs, o, o + |s|);
  }

  lemma NameThere(b: seq<Byte>, x: nat, n: nat, o: nat, s: seq<Byte>)
    requires x + n <= |b| && o + |s| + 1 <= n
    ensures NameHere(Part(b, x, n), o, s) <==> b[x + o..x + o + (|s| + 1)] == s + [0]
    ensures NameHere(Part(b, x, n), o, s) ==> Listed(Part(b, x, n), s)
  {
    Slice(b, x, x + n, o, o + (|s| + 1));
    assert o + (|s| + 1) == o + |s| + 1;
  }

  lemma NotListed(strs: seq<Byte>, s: seq<Byte>, o: nat)
    requires o + |s| + 1 > |strs| && forall i :: 0 <= i < o ==> !NameHere(strs, i, s)
    ensures !Listed(strs, s)
  {}

  lemma WrittenInside(s: seq<Byte>, t: seq<Byte>, x: nat, n: nat, o: nat, data: seq<Byte>)
    requires Written(s, t, x + o, data) && o + |data| <= n && x + n <= |s|
    ensures |t| == |s| && Written(Part(s, x, n), Part(t, x, n), o, data)
  {
    var a, b := Part(s, x, n), Part(t, x, n);
    assert b == a[..o] + data + a[o + |data|..];
  }

  lemma WrittenOutside(s: seq<Byte>, t: seq<Byte>, p: nat, data: seq<Byte>, x: nat, n: nat)
    requires Written(s, t, p, data) && x + n <= |s| && (x + n <= p || p + |data| <= x)
    ensures |t| == |s| && Part(t, x, n) == Part(s, x, n)
  {}

  class Blob {
    const buf: array<Byte>
    var totalsize: nat
    var offStruct: nat
    var sizeStruct: nat
    var offStrings: nat
    var sizeStrings: nat
    ghost var ts: seq<Token>
    ghost var tail: seq<Byte>

    constructor (b: array<Byte>)
      ensures buf == b
    {
      buf := b;
    }

    /** Blocks in order, inside the buffer, and small enough for signed offsets. */
    ghost predicate Layout()
      reads this`totalsize, this`offStruct, this`sizeStruct, this`offStrings, this`sizeStrings
    {
      && offStruct + sizeStruct <= offStrings && offStrings + sizeStrings <= totalsize <= buf.Length
      && totalsize < 0x7fff_ffff
    }

    /** Everything in front of the structure block: the header's place and the reserve map. */
    ghost function Front(): seq<Byte>
      reads this`totalsize, this`offStruct, this`sizeStruct, this`offStrings, this`sizeStrings, buf
      requires Layout()
    {
      Part(buf[..], 0, offStruct)
    }

    ghost function Struct(): (s: seq<Byte>)
      reads this`totalsize, this`offStruct, this`sizeStruct, this`offStrings, this`sizeStrings, buf
      requires Layout()
      ensures |s| == sizeStruct
    {
      Part(buf[..], offStruct, sizeStruct)
    }

    ghost function Strings(): (s: seq<Byte>)
      reads this`totalsize, this`offStruct, this`sizeStruct, this`offStrings, this`sizeStrings, buf
      requires Layout()
      ensures |s| == sizeStrings
    {
      Part(buf[..], offStrings, sizeStrings)
    }

    /** The structure block is a line of tokens, and every property has a name. */
    ghost predicate Valid()
      reads this, buf
    {
      && Layout() && AllWf(ts) && Struct() == Block(ts, tail) && NamesOk(ts, Strings())
    }

    ghost function Line(): seq<Event>
      reads this, buf
      requires Valid()
    {
      Events(ts, Strings())
    }

    /** All bounds are taken in 32 bits; the wrapped tests still answer the question about the true sums. */
    predicate OffsetPtr(offset: int, len: U32)
      reads this`totalsize, this`offStruct, this`sizeStruct, this`offStrings, this`sizeStrings
      requires Layout() && -0x8000_0000 <= offset < 0x8000_0000
      ensures OffsetPtr(offset, len) <==> 0 <= offset && offset + len <= sizeStruct
    {
      if offset < 0 then false
      else
        var absoffset := (offset + offStruct) % WORD;
        if absoffset < offset || (absoffset + len) % WORD < absoffset || (absoffset + len) % WORD > totalsize then false
        else !((offset + len) % WORD < offset || (offset + len) % WORD > sizeStruct)
    }

    method ReadU32(offset: nat) returns (v: U32)
      requires Layout() && offset + 4 <= sizeStruct
      ensures v == GetU32(Struct(), offset)
    {
      var p := offStruct + offset;
      v := GetU32(buf[p..p + 4], 0);
      var s := buf[p..p + 4];
      assert forall j :: 0 <= j < 4 ==> s[j] == Struct()[offset + j];
    }

    /** Bytes of the structure block. */
    method ReadStruct(from: nat, to: nat) returns (s: seq<Byte>)
      requires Layout() && from <= to <= sizeStruct
      ensures s == Struct()[from..to]
    {
      s := buf[offStruct + from..offStruct + to];
      Slice(buf[..], offStruct, offStruct + sizeStruct, from, to);
      assert s == buf[..][offStruct + from..offStruct + to];
    }

    /** Bytes of the strings block. */
    method ReadStrings(from: nat, to: nat) returns (s: seq<Byte>)
      requires Layout() && from <= to <= sizeStrings
      ensures s == Strings()[from..to]
    {
      s := buf[offStrings + from..offStrings + to];
      Slice(buf[..], offStrings, offStrings + sizeStrings, from, to);
      assert s == buf[..][offStrings + from..offStrings + to];
    }

    /** From one tag to the next: the tag, and the offset behind it or a negative error. */
    method NextTag(start: int) returns (tag: U32, next: int)
      requires Layout() && -0x8000_0000 <= start < 0x8000_0000
      ensures (tag, next) == DtFormat.NextTag(Struct(), start)
      ensures next < 0x7fff_ffff + 4
    {
      hide GetU32, Align4, NulAt;
      if !OffsetPtr(start, 4) { return END, -ERR_TRUNCATED; }
      tag := ReadU32(start);
      var offset := start + 4;
      if tag == BEGIN_NODE {
        var found;
        offset, found := SkipName(offset);
        if !found { return END, -ERR_BADSTRUCTURE; }
      } else if tag == PROP {
        if !OffsetPtr(offset, 4) { return END, -ERR_BADSTRUCTURE; }
        var len := ReadU32(offset);
        offset := start + Span(len);
        if !OffsetPtr(start, Span(len)) { return END, -ERR_BADSTRUCTURE; }
      } else if tag != END_NODE && tag != NOP && tag != END {
        return END, -ERR_BADSTRUCTURE;
      }
      next := Align4(offset);
    }

    /** Passes over a name and its zero byte. */
    method SkipName(from: nat) returns (offset: nat, found: bool)
      requires Layout() && from <= sizeStruct
      ensures from <= offset <= sizeStruct + 1
      ensures found <==> NulAt(Struct(), from) < sizeStruct
      ensures found ==> offset == NulAt(Struct(), from) + 1
    {
      ghost var s := Struct();
      offset := from;
      found := false;
      while true
        invariant from <= offset <= sizeStruct && !found
        invariant NulAt(s, from) == NulAt(s, offset)
        decreases sizeStruct - offset
      {
        var p := OffsetPtr(offset, 1);
        offset := offset + 1;
        if !p { return; }
        assert buf[offStruct + offset - 1] == s[offset - 1];
        if buf[offStruct + offset - 1] == 0 {
          found := true;
          return;
        }
      }
    }

    function DataSize(): nat
      reads this`offStrings, this`sizeStrings
    {
      offStrings + sizeStrings
    }

    /** Moves everything behind the splice point, or refuses when the result would not fit. */
    method Splice(point: nat, oldlen: nat, newlen: nat) returns (err: int)
      requires Layout() && point + oldlen <= DataSize()
      modifies buf
      ensures err == if DataSize() - oldlen + newlen > totalsize then -ERR_NOSPACE else 0
      ensures err != 0 ==> buf[..] == old(buf[..])
      ensures err == 0 ==> Moved(old(buf[..]), buf[..], point, oldlen, newlen, DataSize())
    {
      var dsize := DataSize();
      if dsize - oldlen + newlen > totalsize { return -ERR_NOSPACE; }
      forall i | point + newlen <= i < dsize - oldlen + newlen {
        buf[i] := buf[i - newlen + oldlen];
      }
      return 0;
    }

    /** Makes newlen bytes of room in place of oldlen bytes of the structure block. */
    method SpliceStruct(o: nat, oldlen: nat, newlen: nat) returns (err: int)
      requires Layout() && o + oldlen <= sizeStruct
      modifies this`sizeStruct, this`offStrings, buf
      ensures err == if old(DataSize()) - oldlen + newlen > totalsize then -ERR_NOSPACE else 0
      ensures Layout() && Front() == old(Front()) && Strings() == old(Strings())
      ensures DataSize() == old(DataSize()) + if err == 0 then newlen - oldlen else 0
      ensures err != 0 ==> Struct() == old(Struct())
      ensures err == 0 ==>
        && sizeStruct == old(sizeStruct) - oldlen + newlen
        && Spliced(old(Struct()), Struct(), o, oldlen, newlen)
    {
      hide Part, Moved, Spliced;
      ghost var was, size, y := buf[..], sizeStruct, offStrings;
      err := Splice(offStruct + o, oldlen, newlen);
      if err != 0 { return; }
      sizeStruct := sizeStruct - oldlen + newlen;
      offStrings := offStrings - oldlen + newlen;
      SpliceBlocks(was, buf[..], offStruct, size, sizeStruct, y, offStrings, sizeStrings, o, oldlen, newlen);
    }

    /** Makes room behind the last string. */
    method SpliceString(newlen: nat) returns (err: int)
      requires Layout()
      modifies this`sizeStrings, buf
      ensures err == if old(DataSize()) + newlen > totalsize then -ERR_NOSPACE else 0
      ensures Layout() && Front() == old(Front()) && Struct() == old(Struct())
      ensures DataSize() == old(DataSize()) + if err == 0 then newlen else 0
      ensures err != 0 ==> Strings() == old(Strings())
      ensures err == 0 ==> sizeStrings == old(sizeStrings) + newlen && Strings()[..old(sizeStrings)] == old(Strings())
    {
      hide Part, Moved;
      ghost var was, n := buf[..], sizeStrings;
      err := Splice(offStrings + sizeStrings, 0, newlen);
      if err != 0 { return; }
      sizeStrings := sizeStrings + newlen;
      MovedBack(was, buf[..], offStrings + n, newlen, 0, offStruct);
      MovedBack(was, buf[..], offStrings + n, newlen, offStruct, sizeStruct);
      MovedBack(was, buf[..], offStrings + n, newlen, offStrings, n);
      FirstPart(buf[..], offStrings, sizeStrings, n);
    }

    /** Copies bytes into the buffer. */
    method CopyIn(p: nat, data: seq<Byte>)
      requires p + |data| <= buf.Length
      modifies buf
      ensures Written(old(buf[..]), buf[..], p, data)
    {
      forall i | 0 <= i < |data| {
        buf[p + i] := data[i];
      }
    }

    /** Writes bytes into the structure block. */
    method WriteStruct(o: nat, data: seq<Byte>)
      requires Layout() && o + |data| <= sizeStruct
      modifies buf
      ensures Front() == old(Front()) && Strings() == old(Strings())
      ensures Written(old(Struct()), Struct(), o, data)
    {
      ghost var was := buf[..];
      CopyIn(offStruct + o, data);
      hide Written;
      WrittenInside(was, buf[..], offStruct, sizeStruct, o, data);
      WrittenOutside(was, buf[..], offStruct + o, data, 0, offStruct);
      WrittenOutside(was, buf[..], offStruct + o, data, offStrings, sizeStrings);
    }

    method WriteStrings(o: nat, data: seq<Byte>)
      requires Layout() && o + |data| <= sizeStrings
      modifies buf
      ensures Front() == old(Front()) && Struct() == old(Struct())
      ensures Written(old(Strings()), Strings(), o, data)
    {
      ghost var was := buf[..];
      CopyIn(offStrings + o, data);
      hide Written;
      WrittenInside(was, buf[..], offStrings, sizeStrings, o, data);
      WrittenOutside(was, buf[..], offStrings + o, data, 0, offStruct);
      WrittenOutside(was, buf[..], offStrings + o, data, offStruct, sizeStruct);
    }

    /** Looks for a zero-terminated copy of the name, which may be the end of a longer one. */
    method FindString(s: seq<Byte>) returns (found: bool, o: nat)
      requires Layout() && 0 !in s
      ensures found <==> Listed(Strings(), s)
      ensures found ==> HasString(Strings(), o) && StringAt(Strings(), o) == s
    {
      hide *;
      Within();
      ghost var strs := Strings();
      var len := |s| + 1;
      o := 0;
      while o + len <= sizeStrings
        invariant forall i :: 0 <= i < o ==> !NameHere(strs, i, s)
      {
        var p := buf[offStrings + o..offStrings + o + len];
        NameThere(buf[..], offStrings, sizeStrings, o, s);
        if p == s + [0] {
          NameFound(buf[..], offStrings, sizeStrings, o, s);
          return true, o;
        }
        o := o + 1;
      }
      NotListed(strs, s, o);
      return false, o;
    }

    lemma Within()
      requires Layout()
      ensures offStrings + sizeStrings <= buf.Length && Strings() == Part(buf[..], offStrings, sizeStrings)
        && |Strings()| == sizeStrings
    {}

    /** The offset of a name in the strings block, added when it is not there. */
    method FindAddString(s: seq<Byte>) returns (r: int, added: bool)
      requires Layout() && 0 !in s
      modifies this`sizeStrings, buf
      ensures Layout() && Front() == old(Front()) && Struct() == old(Struct())
      ensures r >= 0 ==> HasString(Strings(), r) && StringAt(Strings(), r) == s
      ensures Strings() == if r >= 0 && added then old(Strings()) + s + [0] else old(Strings())
      ensures r >= 0 ==> NameRoom(old(Strings()), s) == if added then |s| + 1 else 0
      ensures DataSize() == old(DataSize()) + if r >= 0 then NameRoom(old(Strings()), s) else 0
      ensures if old(DataSize()) + NameRoom(old(Strings()), s) <= totalsize then r >= 0 else r == -ERR_NOSPACE
    {
      var len := |s| + 1;
      var found;
      found, r := FindString(s);
      if found { return r, false; }
      ghost var strs := Strings();
      var new_ := sizeStrings;
      var err := SpliceString(len);
      if err != 0 { return err, false; }
      WriteStrings(new_, s + [0]);
      assert Strings() == strs + s + [0];
      NewString(strs, s);
      return new_, true;
    }

    /** Only for undoing: forgets the string added last. */
    method DelLastString(s: seq<Byte>)
      requires Layout() && |s| + 1 <= sizeStrings
      modifies this`sizeStrings
      ensures Layout() && Front() == old(Front()) && Struct() == old(Struct())
      ensures Strings() == old(Strings()[..sizeStrings - (|s| + 1)])
      ensures DataSize() == old(DataSize()) - (|s| + 1)
    {
      sizeStrings := sizeStrings - (|s| + 1);
    }
  }
}
