/** What sorting means, what the library calls std::sort and std::merge do, and the contents of the pieces of an
    array that a bucket sort has filled. */
module SortSpec {
  import opened Gates
  ghost predicate Ascending(s: seq<int>) {
    forall i, j | 0 <= i < j < |s| :: s[i] <= s[j]
  }

  // ------------------------------------------------- std::sort

  ghost predicate AscendingBy<T>(s: seq<T>, key: T -> int) {
    forall i, j | 0 <= i < j < |s| :: key(s[i]) <= key(s[j])
  }

  function InsertBy<T>(s: seq<T>, x: T, key: T -> int): (r: seq<T>)
    requires AscendingBy(s, key)
    ensures AscendingBy(r, key) && multiset(r) == multiset(s) + multiset{x}
  {
    if s == [] || key(x) <= key(s[0]) then [x] + s
    else
      var rest := InsertBy(s[1..], x, key);
      assert s == [s[0]] + s[1..];
      InsertedAbove(s, x, rest, key);
      [s[0]] + rest
  }

  lemma InsertedAbove<T>(s: seq<T>, x: T, rest: seq<T>, key: T -> int)
    requires s != [] && AscendingBy(s, key) && key(s[0]) < key(x)
    requires multiset(rest) == multiset(s[1..]) + multiset{x}
    ensures forall i | 0 <= i < |rest| :: key(s[0]) <= key(rest[i])
  {
    forall i | 0 <= i < |rest|
      ensures key(s[0]) <= key(rest[i])
    {
      assert rest[i] in multiset(rest);
      if rest[i] != x {
        assert rest[i] in s[1..];
      }
    }
  }

  /** std::sort: the permutation ascending by `key`. */
  function SortBy<T>(s: seq<T>, key: T -> int): (r: seq<T>)
    ensures AscendingBy(r, key) && multiset(r) == multiset(s)
  {
    if s == [] then []
    else
      assert s == [s[0]] + s[1..];
      InsertBy(SortBy(s[1..], key), s[0], key)
  }

  function Sort(s: seq<int>): (r: seq<int>)
    ensures Ascending(r) && multiset(r) == multiset(s)
  {
    SortBy(s, (x: int) => x)
  }

  // ------------------------------------------------- std::merge

  /** std::merge of two ascending ranges. */
  function Merge(x: seq<int>, y: seq<int>): (r: seq<int>)
    ensures |r| == |x| + |y|
  {
    if x == [] then y
    else if y == [] then x
    else if y[0] < x[0] then [y[0]] + Merge(x, y[1..])
    else [x[0]] + Merge(x[1..], y)
  }

  lemma {:induction false} MergePermutes(x: seq<int>, y: seq<int>)
    ensures multiset(Merge(x, y)) == multiset(x) + multiset(y)
  {
    if x != [] && y != [] {
      if y[0] < x[0] {
        MergePermutes(x, y[1..]);
        FirstAndRest(Merge(x, y), y[0], Merge(x, y[1..]));
        FirstAndRest(y, y[0], y[1..]);
      } else {
        MergePermutes(x[1..], y);
        FirstAndRest(Merge(x, y), x[0], Merge(x[1..], y));
        FirstAndRest(x, x[0], x[1..]);
      }
    }
  }

  lemma FirstAndRest(s: seq<int>, v: int, rest: seq<int>)
    requires s == [v] + rest
    ensures multiset(s) == multiset{v} + multiset(rest)
  {
  }

  lemma {:induction false} MergeSorts(x: seq<int>, y: seq<int>)
    requires Ascending(x) && Ascending(y)
    ensures Ascending(Merge(x, y))
  {
    if x != [] && y != [] {
      if y[0] < x[0] {
        MergeSorts(x, y[1..]);
        LowestFirst(y[0], x, y[1..]);
      } else {
        MergeSorts(x[1..], y);
        LowestFirst(x[0], x[1..], y);
      }
    }
  }

  lemma LowestFirst(v: int, x: seq<int>, y: seq<int>)
    requires Ascending(Merge(x, y))
    requires (forall i | 0 <= i < |x| :: v <= x[i]) && (forall i | 0 <= i < |y| :: v <= y[i])
    ensures Ascending([v] + Merge(x, y))
  {
    var r := Merge(x, y);
    MergePermutes(x, y);
    forall i | 0 <= i < |r|
      ensures v <= r[i]
    {
      assert r[i] in multiset(r);
      assert r[i] in multiset(x) || r[i] in multiset(y);
    }
  }

  /** A merge is in order only if what was merged was. */
  lemma {:induction false} MergeShowsOrder(x: seq<int>, y: seq<int>)
    requires Ascending(Merge(x, y))
    ensures Ascending(x) && Ascending(y)
  {
    if x != [] && y != [] {
      var r := Merge(x, y);
      if y[0] < x[0] {
        assert Merge(x, y[1..]) == r[1..];
        MergeShowsOrder(x, y[1..]);
        assert forall i | 0 <= i < |y| - 1 :: y[1..][i] == y[i + 1];
        FirstIsLowest(r, x, y[1..]);
      } else {
        assert Merge(x[1..], y) == r[1..];
        MergeShowsOrder(x[1..], y);
        assert forall i | 0 <= i < |x| - 1 :: x[1..][i] == x[i + 1];
        FirstIsLowest(r, x[1..], y);
      }
    }
  }

  lemma FirstIsLowest(r: seq<int>, x: seq<int>, y: seq<int>)
    requires r != [] && Ascending(r) && r[1..] == Merge(x, y)
    ensures (forall i | 0 <= i < |x| :: r[0] <= x[i]) && (forall i | 0 <= i < |y| :: r[0] <= y[i])
  {
    MergePermutes(x, y);
    forall i | 0 <= i < |x|
      ensures r[0] <= x[i]
    {
      NotBelowFirst(r, x[i]);
    }
    forall i | 0 <= i < |y|
      ensures r[0] <= y[i]
    {
      NotBelowFirst(r, y[i]);
    }
  }

  lemma NotBelowFirst(r: seq<int>, v: int)
    requires r != [] && Ascending(r) && v in multiset(r[1..])
    ensures r[0] <= v
  {
    assert v in r[1..];
  }

  /** Ascending sequences, one after the other. */
  lemma AppendAscends(x: seq<int>, y: seq<int>)
    ensures Ascending(x + y) <==>
            Ascending(x) && Ascending(y) && forall i, j | 0 <= i < |x| && 0 <= j < |y| :: x[i] <= y[j]
  {
    var r := x + y;
    if Ascending(r) {
      forall i, j | 0 <= i < |x| && 0 <= j < |y|
        ensures x[i] <= y[j]
      {
        assert r[i] <= r[|x| + j];
      }
      forall i, j | 0 <= i < j < |y|
        ensures y[i] <= y[j]
      {
        assert r[|x| + i] <= r[|x| + j];
      }
      assert forall i | 0 <= i < |x| :: r[i] == x[i];
    }
  }

  // ------------------------------------------------- pieces of an array

  /** Piece k is s[lo[k]..lo[k] + size[k]]. */
  ghost predicate Inside(lo: seq<nat>, size: seq<nat>, n: nat) {
    |lo| == |size| && forall k | 0 <= k < |lo| :: lo[k] + size[k] <= n
  }

  ghost function Piece(s: seq<int>, lo: seq<nat>, size: seq<nat>, k: nat): seq<int>
    requires Inside(lo, size, |s|) && k < |lo|
  {
    s[lo[k]..lo[k] + size[k]]
  }

  /** The contents of all pieces from piece `i` on. */
  ghost function Pieces(s: seq<int>, lo: seq<nat>, size: seq<nat>, i: nat): multiset<int>
    requires Inside(lo, size, |s|) && i <= |lo|
    decreases |lo| - i
  {
    if i == |lo| then multiset{} else multiset(Piece(s, lo, size, i)) + Pieces(s, lo, size, i + 1)
  }

  /** Position `x` is in none of the pieces from piece `i` on, but possibly in piece `q`. */
  ghost predicate Avoids(lo: seq<nat>, size: seq<nat>, i: nat, q: int, x: nat)
    requires |lo| == |size|
  {
    forall k | i <= k < |lo| && k != q :: x < lo[k] || lo[k] + size[k] <= x
  }

  /** Only what is in the pieces matters. */
  lemma {:induction false} PiecesFrame(s: seq<int>, lo: seq<nat>, size: seq<nat>, r: seq<int>, lo': seq<nat>,
                                       size': seq<nat>, i: nat)
    requires Inside(lo, size, |s|) && Inside(lo', size', |r|) && |lo| == |lo'| && i <= |lo|
    requires forall k: nat | i <= k < |lo| :: Piece(s, lo, size, k) == Piece(r, lo', size', k)
    ensures Pieces(r, lo', size', i) == Pieces(s, lo, size, i)
    decreases |lo| - i
  {
    if i < |lo| {
      PiecesFrame(s, lo, size, r, lo', size', i + 1);
    }
  }

  /** A write outside the pieces. */
  lemma PiecesWrite(s: seq<int>, lo: seq<nat>, size: seq<nat>, i: nat, x: nat, v: int)
    requires Inside(lo, size, |s|) && i <= |lo| && x < |s| && Avoids(lo, size, i, -1, x)
    ensures Pieces(s[x := v], lo, size, i) == Pieces(s, lo, size, i)
  {
    forall k: nat | i <= k < |lo|
      ensures Piece(s, lo, size, k) == Piece(s[x := v], lo, size, k)
    {
    }
    PiecesFrame(s, lo, size, s[x := v], lo, size, i);
  }

  /** Piece `q` gains an element in front. */
  lemma {:induction false} PiecesGrow(s: seq<int>, lo: seq<nat>, size: seq<nat>, lo': seq<nat>, size': seq<nat>,
                                      i: nat, q: nat, v: int)
    requires Inside(lo, size, |s|) && Inside(lo', size', |s|) && |lo| == |lo'| && i <= q < |lo|
    requires size'[q] == size[q] + 1 && lo'[q] + 1 == lo[q] && v == s[lo'[q]]
    requires forall k | i <= k < |lo| && k != q :: lo'[k] == lo[k] && size'[k] == size[k]
    ensures Pieces(s, lo', size', i) == Pieces(s, lo, size, i) + multiset{v}
    decreases |lo| - i
  {
    if i < q {
      assert Piece(s, lo', size', i) == Piece(s, lo, size, i);
      PiecesGrow(s, lo, size, lo', size', i + 1, q, v);
    } else {
      PieceGrows(s, lo, size, lo', size', q, v);
      forall k: nat | i + 1 <= k < |lo|
        ensures Piece(s, lo, size, k) == Piece(s, lo', size', k)
      {
      }
      PiecesFrame(s, lo, size, s, lo', size', i + 1);
    }
  }

  lemma PieceGrows(s: seq<int>, lo: seq<nat>, size: seq<nat>, lo': seq<nat>, size': seq<nat>, q: nat,
                   v: int)
    requires Inside(lo, size, |s|) && Inside(lo', size', |s|) && |lo| == |lo'| && q < |lo|
    requires size'[q] == size[q] + 1 && lo'[q] + 1 == lo[q] && v == s[lo'[q]]
    ensures multiset(Piece(s, lo', size', q)) == multiset(Piece(s, lo, size, q)) + multiset{v}
  {
    var p, p' := Piece(s, lo, size, q), Piece(s, lo', size', q);
    assert p' == [v] + p;
  }

  /** Piece `k` ends where the next one starts, the last one at `to`. */
  ghost predicate Adjoins(lo: seq<nat>, size: seq<nat>, k: nat, to: nat)
    requires k < |lo| == |size|
  {
    lo[k] + size[k] == if k + 1 < |lo| then lo[k + 1] else to
  }

  /** Pieces that follow each other are one piece. */
  lemma {:induction false} PiecesJoin(s: seq<int>, lo: seq<nat>, size: seq<nat>, i: nat, to: nat)
    requires Inside(lo, size, |s|) && i < |lo| && lo[i] <= to <= |s|
    requires forall k: nat {:trigger Adjoins(lo, size, k, to)} | i <= k < |lo| :: Adjoins(lo, size, k, to)
    ensures Pieces(s, lo, size, i) == multiset(s[lo[i]..to])
    decreases |lo| - i
  {
    var mid := lo[i] + size[i];
    assert Adjoins(lo, size, i, to);
    if i + 1 == |lo| {
      assert Pieces(s, lo, size, i + 1) == multiset{};
      assert s[lo[i]..to] == Piece(s, lo, size, i);
    } else {
      PiecesOrdered(lo, size, i + 1, to);
      PiecesJoin(s, lo, size, i + 1, to);
      assert s[lo[i]..to] == s[lo[i]..mid] + s[mid..to];
    }
  }

  lemma {:induction false} PiecesOrdered(lo: seq<nat>, size: seq<nat>, i: nat, to: nat)
    requires |lo| == |size| && i < |lo|
    requires forall k: nat {:trigger Adjoins(lo, size, k, to)} | i <= k < |lo| :: Adjoins(lo, size, k, to)
    ensures lo[i] <= to
    decreases |lo| - i
  {
    assert Adjoins(lo, size, i, to);
    if i + 1 < |lo| {
      PiecesOrdered(lo, size, i + 1, to);
    }
  }

  /** With nothing in any piece there are no contents. */
  lemma {:induction false} PiecesEmpty(s: seq<int>, lo: seq<nat>, size: seq<nat>, i: nat)
    requires Inside(lo, size, |s|) && i <= |lo| && forall k | i <= k < |size| :: size[k] == 0
    ensures Pieces(s, lo, size, i) == multiset{}
    decreases |lo| - i
  {
    if i < |lo| {
      PiecesEmpty(s, lo, size, i + 1);
    }
  }

  /** The pieces of `s` hold `held`. Code that only passes this on does not look inside: it holds wherever an index is
      named as Looked. */
  ghost predicate Stored(s: seq<int>, lo: seq<nat>, size: seq<nat>, held: multiset<int>) {
    && |lo| == |size|
    && forall u {:trigger Looked(u)} | Looked(u) :: Inside(lo, size, |s|) && Pieces(s, lo, size, 0) == held
  }

  lemma Look(s: seq<int>, lo: seq<nat>, size: seq<nat>, held: multiset<int>)
    requires Stored(s, lo, size, held)
    ensures Inside(lo, size, |s|) && Pieces(s, lo, size, 0) == held
  {
    assert Looked(0);
  }
}
