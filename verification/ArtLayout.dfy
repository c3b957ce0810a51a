/** The four physical child layouts of the radix tree, read as a map from key byte to child, and what
    each in-place edit does to that map. Children are values of any type `T`. */
module ArtLayout {
  import opened Bytes

  /** memmove(s + dst, s + src, n). */
  method Memmove<T>(s: seq<T>, dst: nat, src: nat, n: nat) returns (r: seq<T>)
    requires dst + n <= |s| && src + n <= |s|
    ensures |r| == |s|
    ensures forall i {:trigger r[i]} | dst <= i < dst + n :: r[i] == s[i - dst + src]
    ensures forall i | 0 <= i < dst || dst + n <= i < |s| :: r[i] == s[i]
  {
    r := s[..dst] + s[src..src + n] + s[dst + n..];
  }

  /** memcpy(dst + at, src + from, n). */
  method Memcpy<T>(dst: seq<T>, at: nat, src: seq<T>, from: nat, n: nat) returns (r: seq<T>)
    requires at + n <= |dst| && from + n <= |src|
    ensures |r| == |dst|
    ensures forall i {:trigger r[i]} | at <= i < at + n :: r[i] == src[i - at + from]
    ensures forall i | 0 <= i < at || at + n <= i < |dst| :: r[i] == dst[i]
  {
    r := dst[..at] + src[from..from + n] + dst[at + n..];
  }

  /** `key` is `bytes` with every sign bit flipped. */
  ghost predicate Flips(key: seq<byte>, bytes: seq<byte>) {
    |key| == |bytes| && forall i | 0 <= i < |key| :: key[i] == Flip(bytes[i])
  }

  // ------------------------------------------------- 4-way and 16-way nodes

  ghost predicate KeysAscend(key: seq<byte>, count: nat)
    requires count <= |key|
  {
    forall i, j | 0 <= i < j < count :: key[i] < key[j]
  }

  /** The first `count` entries are children of `kids`. */
  ghost predicate Points<T>(key: seq<byte>, child: seq<T>, count: nat, kids: map<byte, T>)
    requires count <= |key| == |child|
  {
    forall i | 0 <= i < count :: key[i] in kids && kids[key[i]] == child[i]
  }

  /** Every byte of `bytes` is among the first `count` keys. */
  ghost predicate Covers(key: seq<byte>, count: nat, bytes: set<byte>)
    requires count <= |key|
  {
    forall b | b in bytes :: exists i :: 0 <= i < count && key[i] == b
  }

  /** The first `count` entries hold the children of `kids` in ascending order of key byte. */
  ghost predicate Sorted<T>(key: seq<byte>, child: seq<T>, count: nat, kids: map<byte, T>) {
    && count <= |key| == |child|
    && |kids| == count
    && KeysAscend(key, count)
    && Points(key, child, count, kids)
    && Covers(key, count, kids.Keys)
  }

  /** `pos` is where `b` belongs among the first `count` keys. */
  predicate InsertsAt(key: seq<byte>, count: nat, b: byte, pos: nat)
    requires count <= |key|
  {
    pos <= count && (forall i | 0 <= i < pos :: key[i] < b) && (pos < count ==> b < key[pos])
  }

  /** `r` is `s` with the entries from `pos` up to `count` moved up by one and `x` in the gap. */
  ghost predicate GapOpened<T>(s: seq<T>, r: seq<T>, count: nat, pos: nat, x: T) {
    && pos <= count < |s| == |r|
    && (forall i | 0 <= i < pos :: r[i] == s[i])
    && r[pos] == x
    && (forall i {:trigger r[i]} | pos < i <= count :: r[i] == s[i - 1])
  }

  /** Room is made at `pos` by a memmove and `x` is stored there. */
  method OpenGap<T>(s: seq<T>, count: nat, pos: nat, x: T) returns (r: seq<T>)
    requires pos <= count < |s|
    ensures GapOpened(s, r, count, pos, x)
    ensures forall i | count < i < |s| :: r[i] == s[i]
  {
    r := Memmove(s, pos + 1, pos, count - pos);
    r := r[pos := x];
  }

  lemma OpenedAscends(key: seq<byte>, r: seq<byte>, count: nat, pos: nat, b: byte)
    requires GapOpened(key, r, count, pos, b) && KeysAscend(key, count) && InsertsAt(key, count, b, pos)
    ensures KeysAscend(r, count + 1)
  {
  }

  lemma OpenedCovers(key: seq<byte>, r: seq<byte>, count: nat, pos: nat, b: byte, bytes: set<byte>)
    requires GapOpened(key, r, count, pos, b) && Covers(key, count, bytes)
    ensures Covers(r, count + 1, bytes + {b})
  {
    forall e | e in bytes + {b}
      ensures exists i :: 0 <= i < count + 1 && r[i] == e
    {
      if e == b {
        assert r[pos] == e;
      } else {
        var i :| 0 <= i < count && key[i] == e;
        assert r[if i < pos then i else i + 1] == e;
      }
    }
  }

  lemma OpenedPoints<T>(key: seq<byte>, r: seq<byte>, child: seq<T>, rc: seq<T>, count: nat, kids: map<byte, T>,
                        pos: nat, b: byte, c: T)
    requires GapOpened(key, r, count, pos, b) && GapOpened(child, rc, count, pos, c) && |key| == |child|
    requires Points(key, child, count, kids) && b !in kids
    ensures Points(r, rc, count + 1, kids[b := c])
  {
  }

  /** Opening a gap at the insertion point and filling it adds one child and keeps the order. */
  lemma InsertSorted<T>(key: seq<byte>, r: seq<byte>, child: seq<T>, rc: seq<T>, count: nat, kids: map<byte, T>,
                        b: byte, c: T, pos: nat)
    requires Sorted(key, child, count, kids) && b !in kids && InsertsAt(key, count, b, pos)
    requires GapOpened(key, r, count, pos, b) && GapOpened(child, rc, count, pos, c)
    ensures Sorted(r, rc, count + 1, kids[b := c])
  {
    OpenedAscends(key, r, count, pos, b);
    OpenedCovers(key, r, count, pos, b, kids.Keys);
    OpenedPoints(key, r, child, rc, count, kids, pos, b, c);
    WithByte(kids, b, c);
  }

  lemma WithByte<T>(kids: map<byte, T>, b: byte, c: T)
    requires b !in kids
    ensures kids[b := c].Keys == kids.Keys + {b} && |kids[b := c]| == |kids| + 1
  {
    assert kids[b := c].Keys == kids.Keys + {b};
    assert |kids[b := c].Keys| == |kids.Keys| + 1;
  }

  /** `r` is `s` with entry `pos` taken out and the entries up to `count` moved down by one. */
  ghost predicate Closed<T>(s: seq<T>, r: seq<T>, count: nat, pos: nat) {
    && pos < count <= |s| == |r|
    && (forall i | 0 <= i < pos :: r[i] == s[i])
    && (forall i {:trigger r[i]} | pos <= i < count - 1 :: r[i] == s[i + 1])
  }

  /** Entry `pos` is overwritten by a memmove of what follows it. */
  method CloseGap<T>(s: seq<T>, count: nat, pos: nat) returns (r: seq<T>)
    requires pos < count <= |s|
    ensures Closed(s, r, count, pos)
    ensures forall i | count - 1 <= i < |s| :: r[i] == s[i]
  {
    r := Memmove(s, pos, pos + 1, count - pos - 1);
  }

  lemma ClosedCovers(key: seq<byte>, r: seq<byte>, count: nat, pos: nat, bytes: set<byte>)
    requires Closed(key, r, count, pos) && Covers(key, count, bytes)
    ensures Covers(r, count - 1, bytes - {key[pos]})
  {
    forall e | e in bytes - {key[pos]}
      ensures exists i :: 0 <= i < count - 1 && r[i] == e
    {
      var i :| 0 <= i < count && key[i] == e;
      assert r[if i < pos then i else i - 1] == e;
    }
  }

  lemma ClosedPoints<T>(key: seq<byte>, r: seq<byte>, child: seq<T>, rc: seq<T>, count: nat, kids: map<byte, T>,
                        pos: nat)
    requires Closed(key, r, count, pos) && Closed(child, rc, count, pos) && |key| == |child|
    requires Points(key, child, count, kids) && KeysAscend(key, count)
    ensures Points(r, rc, count - 1, kids - {key[pos]})
    ensures KeysAscend(r, count - 1)
  {
  }

  /** Closing the gap at `pos` removes one child and keeps the order. */
  lemma EraseSorted<T>(key: seq<byte>, r: seq<byte>, child: seq<T>, rc: seq<T>, count: nat, kids: map<byte, T>,
                       pos: nat)
    requires Sorted(key, child, count, kids) && Closed(key, r, count, pos) && Closed(child, rc, count, pos)
    ensures Sorted(r, rc, count - 1, kids - {key[pos]})
  {
    ClosedCovers(key, r, count, pos, kids.Keys);
    ClosedPoints(key, r, child, rc, count, kids, pos);
    WithoutByte(kids, key[pos]);
  }

  lemma WithoutByte<T>(kids: map<byte, T>, b: byte)
    requires b in kids
    ensures (kids - {b}).Keys == kids.Keys - {b} && |kids - {b}| == |kids| - 1
  {
    assert (kids - {b}).Keys == kids.Keys - {b};
    assert |(kids - {b}).Keys| == |kids.Keys| - 1;
  }

  lemma SetSorted<T>(key: seq<byte>, child: seq<T>, count: nat, kids: map<byte, T>, b: byte, slot: nat, c: T)
    requires Sorted(key, child, count, kids) && slot < count && key[slot] == b
    ensures Sorted(key, child[slot := c], count, kids[b := c])
  {
    assert kids[b := c].Keys == kids.Keys;
    assert |kids[b := c].Keys| == |kids.Keys|;
  }

  /** Growing to, or shrinking to, another sorted node keeps the children: only the first `count` entries matter. */
  lemma CopySorted<T>(key: seq<byte>, child: seq<T>, r: seq<byte>, rc: seq<T>, count: nat, kids: map<byte, T>)
    requires Sorted(key, child, count, kids) && count <= |r| == |rc|
    requires forall i | 0 <= i < count :: r[i] == key[i]
    requires forall i | 0 <= i < count :: rc[i] == child[i]
    ensures Sorted(r, rc, count, kids)
  {
    forall b | b in kids.Keys
      ensures exists i :: 0 <= i < count && r[i] == b
    {
      var i :| 0 <= i < count && key[i] == b;
      assert r[i] == b;
    }
  }

  // ------------------------------------------------- 48-way nodes

  const EMPTY := 48

  /** Every child has a slot of its own. */
  ghost predicate Slotted<T>(index: seq<nat>, child: seq<T>, kids: map<byte, T>, none: T)
    requires |index| == 256 && |child| == 48
  {
    && (forall b: byte :: b in kids <==> index[b] != EMPTY)
    && (forall b | b in kids :: index[b] < 48 && child[index[b]] == kids[b] && kids[b] != none)
    && (forall b, c | b in kids && c in kids && b != c :: index[b] != index[c])
  }

  /** Every used slot is some child's. */
  ghost predicate Owned<T>(index: seq<nat>, child: seq<T>, bytes: set<byte>, none: T)
    requires |index| == 256 && |child| == 48
  {
    forall i | 0 <= i < 48 && child[i] != none :: exists b :: b in bytes && index[b] == i
  }

  /** The index entries other than the empty marker and the used child slots are in bijection. */
  ghost predicate Indexed<T>(index: seq<nat>, child: seq<T>, count: nat, kids: map<byte, T>, none: T) {
    && |index| == 256 && |child| == 48
    && |kids| == count
    && Slotted(index, child, kids, none)
    && Owned(index, child, kids.Keys, none)
  }

  /** Storing a child in a free slot. */
  lemma InsertIndexed<T>(index: seq<nat>, child: seq<T>, count: nat, kids: map<byte, T>, none: T, b: byte, c: T,
                         pos: nat)
    requires Indexed(index, child, count, kids, none) && b !in kids && c != none && pos < 48 && child[pos] == none
    ensures Indexed(index[b := pos], child[pos := c], count + 1, kids[b := c], none)
  {
    WithByte(kids, b, c);
    InsertOwned(index, child, kids.Keys, none, b, c, pos);
  }

  lemma InsertOwned<T>(index: seq<nat>, child: seq<T>, bytes: set<byte>, none: T, b: byte, c: T, pos: nat)
    requires |index| == 256 && |child| == 48 && b !in bytes && pos < 48 && Owned(index, child, bytes, none)
    ensures Owned(index[b := pos], child[pos := c], bytes + {b}, none)
  {
    var index', child' := index[b := pos], child[pos := c];
    forall i | 0 <= i < 48 && child'[i] != none
      ensures exists e :: e in bytes + {b} && index'[e] == i
    {
      if i == pos {
        assert index'[b] == i;
      } else {
        var e :| e in bytes && index[e] == i;
        assert index'[e] == i;
      }
    }
  }

  lemma SetIndexed<T>(index: seq<nat>, child: seq<T>, count: nat, kids: map<byte, T>, none: T, b: byte, c: T)
    requires Indexed(index, child, count, kids, none) && b in kids && c != none
    ensures Indexed(index, child[index[b] := c], count, kids[b := c], none)
  {
    assert kids[b := c].Keys == kids.Keys;
    assert |kids[b := c].Keys| == |kids.Keys|;
  }

  lemma EraseIndexed<T>(index: seq<nat>, child: seq<T>, count: nat, kids: map<byte, T>, none: T, b: byte)
    requires Indexed(index, child, count, kids, none) && b in kids
    ensures Indexed(index[b := EMPTY], child[index[b] := none], count - 1, kids - {b}, none)
  {
    WithoutByte(kids, b);
    EraseOwned(index, child, kids.Keys, none, b);
    assert index[b := EMPTY][b] == EMPTY;
  }

  lemma EraseOwned<T>(index: seq<nat>, child: seq<T>, bytes: set<byte>, none: T, b: byte)
    requires |index| == 256 && |child| == 48 && b in bytes && index[b] < 48 && Owned(index, child, bytes, none)
    ensures Owned(index[b := EMPTY], child[index[b] := none], bytes - {b}, none)
  {
    var index', child' := index[b := EMPTY], child[index[b] := none];
    forall i | 0 <= i < 48 && child'[i] != none
      ensures exists e :: e in bytes - {b} && index'[e] == i
    {
      var e :| e in bytes && index[e] == i;
      assert index'[e] == i;
    }
  }

  /** While fewer than 48 children are stored some slot is free, so the scan for one ends. */
  lemma FreeSlot<T>(index: seq<nat>, child: seq<T>, count: nat, kids: map<byte, T>, none: T)
    requires Indexed(index, child, count, kids, none) && count < 48
    ensures exists i :: 0 <= i < 48 && child[i] == none
  {
    if forall i | 0 <= i < 48 :: child[i] != none {
      ImageSize(kids.Keys, index);
      AllUsed(index, child, kids.Keys, none);
      SubsetSize(Upto(48), Image(kids.Keys, index));
    }
  }

  lemma AllUsed<T>(index: seq<nat>, child: seq<T>, bytes: set<byte>, none: T)
    requires |index| == 256 && |child| == 48 && Owned(index, child, bytes, none)
    requires forall i | 0 <= i < 48 :: child[i] != none
    ensures Upto(48) <= Image(bytes, index)
  {
    forall i | i in Upto(48)
      ensures i in Image(bytes, index)
    {
      assert child[i] != none;
      var b :| b in bytes && index[b] == i;
    }
  }

  ghost function Image(bytes: set<byte>, index: seq<nat>): set<nat>
    requires |index| == 256
  {
    set b | b in bytes :: index[b]
  }

  function Upto(n: nat): (s: set<nat>)
    ensures |s| == n && forall i: nat :: i in s <==> i < n
  {
    if n == 0 then {} else Upto(n - 1) + {n - 1}
  }

  lemma {:induction false} ImageSize(bytes: set<byte>, index: seq<nat>)
    requires |index| == 256
    ensures |Image(bytes, index)| <= |bytes|
  {
    if bytes != {} {
      var b :| b in bytes;
      ImageSize(bytes - {b}, index);
      assert Image(bytes, index) == Image(bytes - {b}, index) + {index[b]};
    }
  }

  lemma {:induction false} SubsetSize<T>(a: set<T>, b: set<T>)
    requires a <= b
    ensures |a| <= |b|
  {
    if a != {} {
      var x :| x in a;
      SubsetSize(a - {x}, b - {x});
    }
  }

  // ------------------------------------------------- 256-way nodes

  ghost predicate Direct<T>(child: seq<T>, count: nat, kids: map<byte, T>, none: T) {
    && |child| == 256
    && |kids| == count
    && (forall b: byte :: b in kids <==> child[b] != none)
    && (forall b | b in kids :: child[b] == kids[b])
  }

  lemma InsertDirect<T>(child: seq<T>, count: nat, kids: map<byte, T>, none: T, b: byte, c: T)
    requires Direct(child, count, kids, none) && b !in kids && c != none
    ensures Direct(child[b := c], count + 1, kids[b := c], none)
  {
  }

  lemma EraseDirect<T>(child: seq<T>, count: nat, kids: map<byte, T>, none: T, b: byte)
    requires Direct(child, count, kids, none) && b in kids
    ensures Direct(child[b := none], count - 1, kids - {b}, none)
  {
    WithoutByte(kids, b);
  }
}
