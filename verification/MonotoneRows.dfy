/** The contents of chains of buckets, row by row, and the order in which an iterator passes over them. */
module MonotoneRows {
  import opened SortSpec
  import opened PairBuckets

  type Row = seq<Slot>

  /** The pairs of a bucket up to its first free slot. */
  function Pairs(row: Row, sentinel: int): seq<Slot> {
    if row == [] || row[0].key == sentinel then [] else [row[0]] + Pairs(row[1..], sentinel)
  }

  /** The pairs of a chain. */
  function Flat(rows: seq<Row>, sentinel: int): seq<Slot> {
    if rows == [] then [] else Pairs(rows[0], sentinel) + Flat(rows[1..], sentinel)
  }

  ghost predicate Full(row: Row, sentinel: int) {
    forall i | 0 <= i < |row| :: row[i].key != sentinel
  }

  /** All buckets of a chain but the last are full; the last is not empty unless it is the only one. */
  ghost predicate Tidy(rows: seq<Row>, size: nat, sentinel: int) {
    && size > 0 && rows != [] && (forall k | 0 <= k < |rows| :: |rows[k]| == size)
    && (forall k | 0 <= k < |rows| - 1 :: Full(rows[k], sentinel))
    && Packed(rows[|rows| - 1], sentinel)
    && (|rows| > 1 ==> rows[|rows| - 1][0].key != sentinel)
  }

  /** In a packed bucket the used slots come first. */
  lemma {:induction false} PackedPairs(row: Row, sentinel: int)
    requires Packed(row, sentinel)
    ensures |Pairs(row, sentinel)| <= |row| && Pairs(row, sentinel) == row[..|Pairs(row, sentinel)|]
    ensures forall i | 0 <= i < |row| :: row[i].key != sentinel <==> i < |Pairs(row, sentinel)|
  {
    if row != [] && row[0].key != sentinel {
      var rest := row[1..];
      assert forall i | 0 <= i < |rest| :: rest[i] == row[i + 1];
      PackedPairs(rest, sentinel);
      var n := |Pairs(rest, sentinel)|;
      assert row[..n + 1] == [row[0]] + rest[..n];
      forall i | 0 <= i < |row|
        ensures row[i].key != sentinel <==> i < n + 1
      {
        assert i > 0 ==> row[i] == rest[i - 1];
      }
    }
  }

  lemma PairsLength(row: Row, sentinel: int, n: nat)
    requires Packed(row, sentinel) && n <= |row|
    requires (n > 0 ==> row[n - 1].key != sentinel) && (n < |row| ==> row[n].key == sentinel)
    ensures |Pairs(row, sentinel)| == n && Pairs(row, sentinel) == row[..n]
  {
    PackedPairs(row, sentinel);
  }

  lemma RowPacked(rows: seq<Row>, size: nat, sentinel: int, k: nat)
    requires Tidy(rows, size, sentinel) && k < |rows|
    ensures Packed(rows[k], sentinel)
  {
    if k < |rows| - 1 {
      assert Full(rows[k], sentinel);
    }
  }

  lemma {:induction false} FlatConcat(a: seq<Row>, b: seq<Row>, sentinel: int)
    ensures Flat(a + b, sentinel) == Flat(a, sentinel) + Flat(b, sentinel)
  {
    if a == [] {
      assert a + b == b;
    } else {
      FlatConcat(a[1..], b, sentinel);
      assert (a + b)[1..] == a[1..] + b;
      Associate(Pairs(a[0], sentinel), Flat(a[1..], sentinel), Flat(b, sentinel));
    }
  }

  lemma Associate(x: seq<Slot>, y: seq<Slot>, z: seq<Slot>)
    ensures x + (y + z) == (x + y) + z
  {
  }

  function FreeRow(size: nat, sentinel: int): (row: Row)
    ensures |row| == size && forall i | 0 <= i < size :: row[i] == Slot(sentinel, 0)
  {
    seq(size, _ => Slot(sentinel, 0))
  }

  /** A chain of one free bucket. */
  lemma EmptyTidy(size: nat, sentinel: int)
    requires size > 0
    ensures Tidy([FreeRow(size, sentinel)], size, sentinel) && Flat([FreeRow(size, sentinel)], sentinel) == []
  {
    assert [FreeRow(size, sentinel)][1..] == [];
  }

  /** The first free slot of the last bucket takes the next pair. */
  lemma FillTidy(rows: seq<Row>, size: nat, sentinel: int, i: nat, slot: Slot)
    requires Tidy(rows, size, sentinel) && slot.key != sentinel && i < size
    requires rows[|rows| - 1][i].key == sentinel && Full(rows[|rows| - 1][..i], sentinel)
    ensures
      var n := |rows| - 1;
      var r := rows[n := rows[n][i := slot]];
      Tidy(r, size, sentinel) && Flat(r, sentinel) == Flat(rows, sentinel) + [slot]
  {
    var n := |rows| - 1;
    var row := rows[n];
    var row' := row[i := slot];
    FillPairs(row, sentinel, i, slot);
    FlatLast(rows[..n], row, sentinel);
    FlatLast(rows[..n], row', sentinel);
    assert rows == rows[..n] + [row] && rows[n := row'] == rows[..n] + [row'];
  }

  lemma FillPairs(row: Row, sentinel: int, i: nat, slot: Slot)
    requires Packed(row, sentinel) && i < |row| && row[i].key == sentinel && slot.key != sentinel
    requires Full(row[..i], sentinel)
    ensures Packed(row[i := slot], sentinel) && Pairs(row[i := slot], sentinel) == Pairs(row, sentinel) + [slot]
  {
    assert forall j | 0 <= j < i :: row[..i][j] == row[j] && row[j].key != sentinel;
    PairsLength(row, sentinel, i);
    PairsLength(row[i := slot], sentinel, i + 1);
    assert row[i := slot][..i + 1] == row[..i] + [slot];
  }

  lemma FlatLast(rows: seq<Row>, row: Row, sentinel: int)
    ensures Flat(rows + [row], sentinel) == Flat(rows, sentinel) + Pairs(row, sentinel)
  {
    FlatConcat(rows, [row], sentinel);
    assert [row][1..] == [];
  }

  /** If all buckets are full, a new one takes the next pair. */
  lemma ExtendTidy(rows: seq<Row>, size: nat, sentinel: int, slot: Slot)
    requires Tidy(rows, size, sentinel) && slot.key != sentinel && Full(rows[|rows| - 1], sentinel)
    ensures
      var r := rows + [FreeRow(size, sentinel)[0 := slot]];
      Tidy(r, size, sentinel) && Flat(r, sentinel) == Flat(rows, sentinel) + [slot]
  {
    var row := FreeRow(size, sentinel)[0 := slot];
    FillPairs(FreeRow(size, sentinel), sentinel, 0, slot);
    FlatLast(rows, row, sentinel);
  }

  // ---------------------------------------------------------------- the way of an iterator

  /** What an iterator passes of a chain: its pairs, or the free slot of an empty one. */
  function Cells(rows: seq<Row>, sentinel: int): seq<Slot> {
    if Flat(rows, sentinel) == [] && rows != [] && rows[0] != [] then [rows[0][0]] else Flat(rows, sentinel)
  }

  /** What is left of a chain from slot `i` of bucket `k` on. */
  function CellsFrom(rows: seq<Row>, k: nat, i: nat, sentinel: int): seq<Slot>
    requires k < |rows| && i < |rows[k]|
  {
    if rows[k][i].key == sentinel then [rows[k][i]] else Pairs(rows[k][i..], sentinel) + Flat(rows[k + 1..], sentinel)
  }

  /** An iterator stands at a pair, or at the first slot of an empty chain. */
  ghost predicate Standing(rows: seq<Row>, k: nat, i: nat, sentinel: int) {
    k < |rows| && i < |rows[k]| && (rows[k][i].key == sentinel ==> k == 0 && i == 0)
  }

  lemma StartStanding(rows: seq<Row>, size: nat, sentinel: int)
    requires Tidy(rows, size, sentinel)
    ensures Standing(rows, 0, 0, sentinel) && CellsFrom(rows, 0, 0, sentinel) == Cells(rows, sentinel)
  {
    assert rows[0][0..] == rows[0];
    assert |rows| > 1 ==> Full(rows[0], sentinel);
    if rows[0][0].key == sentinel {
      assert rows[1..] == [] && Flat(rows, sentinel) == Pairs(rows[0], sentinel) + Flat(rows[1..], sentinel);
    }
  }

  /** To the next slot of the same bucket. */
  lemma NextSlot(rows: seq<Row>, size: nat, sentinel: int, k: nat, i: nat)
    requires Tidy(rows, size, sentinel) && Standing(rows, k, i, sentinel) && i + 1 < size
    requires rows[k][i + 1].key != sentinel
    ensures Standing(rows, k, i + 1, sentinel)
    ensures CellsFrom(rows, k, i, sentinel) == [rows[k][i]] + CellsFrom(rows, k, i + 1, sentinel)
  {
    UsedBefore(rows, size, sentinel, k, i + 1, i);
    assert rows[k][i..][1..] == rows[k][i + 1..];
  }

  /** Before a used slot there are only used slots. */
  lemma UsedBefore(rows: seq<Row>, size: nat, sentinel: int, k: nat, i: nat, j: nat)
    requires Tidy(rows, size, sentinel) && k < |rows| && j <= i < size && rows[k][i].key != sentinel
    ensures rows[k][j].key != sentinel
  {
    RowPacked(rows, size, sentinel, k);
  }

  /** To the first slot of the next bucket. */
  lemma NextRow(rows: seq<Row>, size: nat, sentinel: int, k: nat, i: nat)
    requires Tidy(rows, size, sentinel) && Standing(rows, k, i, sentinel) && k + 1 < |rows|
    requires i + 1 == size || rows[k][i + 1].key == sentinel
    ensures Standing(rows, k + 1, 0, sentinel)
    ensures CellsFrom(rows, k, i, sentinel) == [rows[k][i]] + CellsFrom(rows, k + 1, 0, sentinel)
  {
    assert Full(rows[k], sentinel);
    assert rows[k][i..] == [rows[k][i]];
    assert rows[k][i..][1..] == [];
    assert rows[k + 1][0].key != sentinel by {
      if k + 1 < |rows| - 1 {
        assert Full(rows[k + 1], sentinel);
      }
    }
    var rest := rows[k + 1..];
    assert rows[k + 1][0..] == rows[k + 1] && rest[0] == rows[k + 1] && rest[1..] == rows[k + 2..];
    assert Pairs(rows[k][i..], sentinel) == [rows[k][i]];
    assert Flat(rest, sentinel) == Pairs(rest[0], sentinel) + Flat(rest[1..], sentinel);
  }

  /** At the end of the chain. */
  lemma LastSlot(rows: seq<Row>, size: nat, sentinel: int, k: nat, i: nat)
    requires Tidy(rows, size, sentinel) && Standing(rows, k, i, sentinel) && k + 1 == |rows|
    requires i + 1 == size || rows[k][i + 1].key == sentinel
    ensures CellsFrom(rows, k, i, sentinel) == [rows[k][i]]
  {
    if rows[k][i].key != sentinel {
      assert rows[k][i..][0] == rows[k][i] && rows[k + 1..] == [];
      assert i + 1 < size ==> rows[k][i..][1] == rows[k][i + 1];
      assert Pairs(rows[k][i..][1..], sentinel) == [];
    }
  }

  lemma PairsFrom(row: Row, sentinel: int, i: nat)
    requires Packed(row, sentinel) && i < |row| && row[i].key != sentinel
    ensures Pairs(row, sentinel) == row[..i] + Pairs(row[i..], sentinel)
  {
    PackedPairs(row, sentinel);
    var n, rest := |Pairs(row, sentinel)|, row[i..];
    assert forall j | 0 <= j < |rest| :: rest[j] == row[i + j];
    PairsLength(rest, sentinel, n - i);
    assert row[..n] == row[..i] + rest[..n - i];
  }

  /** From a pair of a chain on, an iterator passes the end of the pairs of the chain. */
  lemma ChainEnd(rows: seq<Row>, size: nat, sentinel: int, k: nat, i: nat) returns (before: seq<Slot>)
    requires Tidy(rows, size, sentinel) && Standing(rows, k, i, sentinel) && rows[k][i].key != sentinel
    ensures Flat(rows, sentinel) == before + CellsFrom(rows, k, i, sentinel)
  {
    RowPacked(rows, size, sentinel, k);
    PairsFrom(rows[k], sentinel, i);
    assert rows == (rows[..k] + [rows[k]]) + rows[k + 1..];
    FlatConcat(rows[..k] + [rows[k]], rows[k + 1..], sentinel);
    FlatLast(rows[..k], rows[k], sentinel);
    before := Flat(rows[..k], sentinel) + rows[k][..i];
    Regroup(Flat(rows[..k], sentinel), rows[k][..i], Pairs(rows[k][i..], sentinel), Flat(rows[k + 1..], sentinel));
  }

  lemma Regroup(a: seq<Slot>, b: seq<Slot>, c: seq<Slot>, d: seq<Slot>)
    ensures (a + (b + c)) + d == (a + b) + (c + d)
  {
  }

  // ---------------------------------------------------------------- all chains

  /** What an iterator passes from the start of chain `d` on. */
  function Trace(all: seq<seq<Row>>, d: nat, sentinel: int): seq<Slot>
    requires d <= |all|
    decreases |all| - d
  {
    if d == |all| then [] else Cells(all[d], sentinel) + Trace(all, d + 1, sentinel)
  }

  /** The pairs from chain `d` on. */
  function PairsOf(all: seq<seq<Row>>, d: nat, sentinel: int): seq<Slot>
    requires d <= |all|
    decreases |all| - d
  {
    if d == |all| then [] else Flat(all[d], sentinel) + PairsOf(all, d + 1, sentinel)
  }

  /** How many chains from chain `d` on are empty. */
  function Empties(all: seq<seq<Row>>, d: nat, sentinel: int): nat
    requires d <= |all|
    decreases |all| - d
  {
    if d == |all| then 0 else (if Flat(all[d], sentinel) == [] then 1 else 0) + Empties(all, d + 1, sentinel)
  }

  /** Without the free slots. */
  function Strip(cells: seq<Slot>, sentinel: int): seq<Slot> {
    if cells == [] then []
    else (if cells[0].key == sentinel then [] else [cells[0]]) + Strip(cells[1..], sentinel)
  }

  lemma {:induction false} StripConcat(a: seq<Slot>, b: seq<Slot>, sentinel: int)
    ensures Strip(a + b, sentinel) == Strip(a, sentinel) + Strip(b, sentinel)
  {
    if a == [] {
      assert a + b == b;
    } else {
      StripConcat(a[1..], b, sentinel);
      assert (a + b)[1..] == a[1..] + b;
      Associate(if a[0].key == sentinel then [] else [a[0]], Strip(a[1..], sentinel), Strip(b, sentinel));
    }
  }

  lemma {:induction false} StripPairs(s: seq<Slot>, sentinel: int)
    requires forall i | 0 <= i < |s| :: s[i].key != sentinel
    ensures Strip(s, sentinel) == s
  {
    if s != [] {
      StripPairs(s[1..], sentinel);
    }
  }

  lemma {:induction false} PairsUsed(row: Row, sentinel: int)
    ensures forall i | 0 <= i < |Pairs(row, sentinel)| :: Pairs(row, sentinel)[i].key != sentinel
  {
    if row != [] {
      PairsUsed(row[1..], sentinel);
    }
  }

  lemma {:induction false} FlatUsed(rows: seq<Row>, sentinel: int)
    ensures forall i | 0 <= i < |Flat(rows, sentinel)| :: Flat(rows, sentinel)[i].key != sentinel
  {
    if rows != [] {
      PairsUsed(rows[0], sentinel);
      FlatUsed(rows[1..], sentinel);
    }
  }

  /** An iterator passes the pairs in order, and one free slot for every empty chain. */
  lemma {:induction false} TracePairs(all: seq<seq<Row>>, d: nat, size: nat, sentinel: int)
    requires d <= |all| && forall e | 0 <= e < |all| :: Tidy(all[e], size, sentinel)
    ensures Strip(Trace(all, d, sentinel), sentinel) == PairsOf(all, d, sentinel)
    ensures |Trace(all, d, sentinel)| == |PairsOf(all, d, sentinel)| + Empties(all, d, sentinel)
    decreases |all| - d
  {
    if d < |all| {
      TracePairs(all, d + 1, size, sentinel);
      StripConcat(Cells(all[d], sentinel), Trace(all, d + 1, sentinel), sentinel);
      CellsPairs(all[d], size, sentinel);
    }
  }

  lemma CellsPairs(rows: seq<Row>, size: nat, sentinel: int)
    requires Tidy(rows, size, sentinel)
    ensures Strip(Cells(rows, sentinel), sentinel) == Flat(rows, sentinel)
    ensures |Cells(rows, sentinel)| == |Flat(rows, sentinel)| + if Flat(rows, sentinel) == [] then 1 else 0
  {
    if Flat(rows, sentinel) == [] {
      assert Pairs(rows[0], sentinel) == [] && rows[0][0].key == sentinel;
      assert [rows[0][0]][1..] == [];
    } else {
      FlatUsed(rows, sentinel);
      StripPairs(Flat(rows, sentinel), sentinel);
    }
  }

  // ---------------------------------------------------------------- the data

  /** The pairs assigned to chain `d`, in order. */
  function Assigned(data: seq<Slot>, model: int -> nat, d: nat): seq<Slot> {
    if data == [] then []
    else Assigned(data[..|data| - 1], model, d) + if model(data[|data| - 1].key) == d then [data[|data| - 1]] else []
  }

  ghost predicate InOrder(data: seq<Slot>) {
    forall i, j | 0 <= i < j < |data| :: data[i].key <= data[j].key
  }

  /** std::sort by the key. */
  function SortPairs(s: seq<Slot>): (r: seq<Slot>)
    ensures InOrder(r) && multiset(r) == multiset(s)
  {
    SortBy(s, (p: Slot) => p.key)
  }

  /** Keys in order are assigned to chains in order. */
  ghost predicate Monotone(data: seq<Slot>, model: int -> nat) {
    forall i, j | 0 <= i < j < |data| :: model(data[i].key) <= model(data[j].key)
  }

  /** The pairs assigned to each of `n` chains. */
  function AllAssigned(data: seq<Slot>, model: int -> nat, n: nat): (parts: seq<seq<Slot>>)
    ensures |parts| == n && forall d | 0 <= d < n :: parts[d] == Assigned(data, model, d)
  {
    seq(n, d requires 0 <= d < n => Assigned(data, model, d))
  }

  /** All parts from part `d` on, one after the other. */
  function JoinFrom(parts: seq<seq<Slot>>, d: nat): seq<Slot>
    requires d <= |parts|
    decreases |parts| - d
  {
    if d == |parts| then [] else parts[d] + JoinFrom(parts, d + 1)
  }

  lemma {:induction false} JoinNothing(parts: seq<seq<Slot>>, d: nat)
    requires d <= |parts| && forall e | d <= e < |parts| :: parts[e] == []
    ensures JoinFrom(parts, d) == []
    decreases |parts| - d
  {
    if d < |parts| {
      JoinNothing(parts, d + 1);
    }
  }

  /** One more pair in a part after which all are empty. */
  lemma {:induction false} JoinMore(parts: seq<seq<Slot>>, d: nat, m: nat, x: Slot)
    requires d <= m < |parts| && forall e | m < e < |parts| :: parts[e] == []
    ensures JoinFrom(parts[m := parts[m] + [x]], d) == JoinFrom(parts, d) + [x]
    decreases |parts| - d
  {
    var more := parts[m := parts[m] + [x]];
    if d == m {
      JoinNothing(parts, d + 1);
      JoinNothing(more, d + 1);
    } else {
      JoinMore(parts, d + 1, m, x);
      Associate(parts[d], JoinFrom(parts, d + 1), [x]);
    }
  }

  lemma {:induction false} NothingAbove(data: seq<Slot>, model: int -> nat, d: nat)
    requires forall i | 0 <= i < |data| :: model(data[i].key) < d
    ensures Assigned(data, model, d) == []
  {
    if data != [] {
      NothingAbove(data[..|data| - 1], model, d);
    }
  }

  /** With a monotone model the chains one after the other are the data. */
  lemma {:induction false} ChainsInOrder(data: seq<Slot>, model: int -> nat, n: nat)
    requires Monotone(data, model) && forall i | 0 <= i < |data| :: model(data[i].key) < n
    ensures JoinFrom(AllAssigned(data, model, n), 0) == data
  {
    var parts := AllAssigned(data, model, n);
    if data == [] {
      JoinNothing(parts, 0);
    } else {
      var l := |data| - 1;
      var before, m := AllAssigned(data[..l], model, n), model(data[l].key);
      ChainsInOrder(data[..l], model, n);
      LastAssigned(data, model, n);
      JoinMore(before, 0, m, data[l]);
    }
  }

  /** The last pair goes to the end of a chain after which all are empty. */
  lemma LastAssigned(data: seq<Slot>, model: int -> nat, n: nat)
    requires data != [] && Monotone(data, model) && forall i | 0 <= i < |data| :: model(data[i].key) < n
    ensures
      var l := |data| - 1;
      var before, m := AllAssigned(data[..l], model, n), model(data[l].key);
      AllAssigned(data, model, n) == before[m := before[m] + [data[l]]] && forall e | m < e < n :: before[e] == []
  {
    var l := |data| - 1;
    var before, m := AllAssigned(data[..l], model, n), model(data[l].key);
    forall e | m < e < n
      ensures before[e] == []
    {
      NothingAbove(data[..l], model, e);
    }
    var more := before[m := before[m] + [data[l]]];
    forall d | 0 <= d < n
      ensures AllAssigned(data, model, n)[d] == more[d]
    {
    }
  }

  lemma {:induction false} PairsJoined(all: seq<seq<Row>>, parts: seq<seq<Slot>>, d: nat, sentinel: int)
    requires d <= |all| == |parts| && forall e | 0 <= e < |all| :: Flat(all[e], sentinel) == parts[e]
    ensures PairsOf(all, d, sentinel) == JoinFrom(parts, d)
    decreases |all| - d
  {
    if d < |all| {
      PairsJoined(all, parts, d + 1, sentinel);
    }
  }

  ghost predicate Distinct(data: seq<Slot>) {
    forall i, j | 0 <= i < j < |data| :: data[i].key != data[j].key
  }

  /** The chains are in order and hold the data assigned to them. */
  ghost predicate Sorted(all: seq<seq<Row>>, size: nat, sentinel: int, data: seq<Slot>, model: int -> nat) {
    && (forall e | 0 <= e < |all| :: Tidy(all[e], size, sentinel) && Flat(all[e], sentinel) == Assigned(data, model, e))
    && forall j | 0 <= j < |data| :: model(data[j].key) < |all|
  }

  /** From the pair of a key on, an iterator passes exactly the data from that key on, and a free slot for every empty
      chain after its own. */
  lemma VisitsRest(all: seq<seq<Row>>, size: nat, sentinel: int, data: seq<Slot>, model: int -> nat,
                   d: nat, k: nat, i: nat, at: nat, cells: seq<Slot>)
    requires Sorted(all, size, sentinel, data, model) && Monotone(data, model)
    requires Distinct(data)
    requires d < |all| && Standing(all[d], k, i, sentinel) && at < |data|
    requires data[at].key == all[d][k][i].key != sentinel
    requires cells == CellsFrom(all[d], k, i, sentinel) + Trace(all, d + 1, sentinel)
    ensures Strip(cells, sentinel) == data[at..]
    ensures |cells| == |data| - at + Empties(all, d + 1, sentinel)
  {
    var c, rest := CellsFrom(all[d], k, i, sentinel), PairsOf(all, d + 1, sentinel);
    StripRest(all, size, sentinel, d, k, i, cells);
    var before := SplitData(all, size, sentinel, data, model, d, k, i);
    FirstCell(all[d], size, sentinel, k, i, rest);
    OnlyPlace(data, before, c + rest, at);
  }

  lemma FirstCell(rows: seq<Row>, size: nat, sentinel: int, k: nat, i: nat, rest: seq<Slot>)
    requires Standing(rows, k, i, sentinel)
    ensures CellsFrom(rows, k, i, sentinel) + rest != [] && (CellsFrom(rows, k, i, sentinel) + rest)[0] == rows[k][i]
  {
  }

  /** The data, cut where the iterator stands. */
  lemma SplitData(all: seq<seq<Row>>, size: nat, sentinel: int, data: seq<Slot>, model: int -> nat, d: nat, k: nat,
                  i: nat)
    returns (before: seq<Slot>)
    requires Sorted(all, size, sentinel, data, model) && Monotone(data, model)
    requires d < |all| && Standing(all[d], k, i, sentinel) && all[d][k][i].key != sentinel
    ensures data == before + (CellsFrom(all[d], k, i, sentinel) + PairsOf(all, d + 1, sentinel))
  {
    PairsJoined(all, AllAssigned(data, model, |all|), 0, sentinel);
    ChainsInOrder(data, model, |all|);
    var inChain := ChainEnd(all[d], size, sentinel, k, i);
    var earlier := PairsSplit(all, d, sentinel);
    before := earlier + inChain;
    Cut(earlier, inChain, CellsFrom(all[d], k, i, sentinel), PairsOf(all, d + 1, sentinel));
  }

  lemma Cut(a: seq<Slot>, b: seq<Slot>, c: seq<Slot>, d: seq<Slot>)
    ensures a + ((b + c) + d) == (a + b) + (c + d)
  {
  }

  lemma OnlyPlace(data: seq<Slot>, before: seq<Slot>, rest: seq<Slot>, at: nat)
    requires data == before + rest && rest != [] && at < |data| && data[at].key == rest[0].key
    requires Distinct(data)
    ensures |before| == at && rest == data[at..]
  {
    assert data[|before|] == rest[0];
  }

  /** What an iterator passes from a pair on, without the free slots. */
  lemma StripRest(all: seq<seq<Row>>, size: nat, sentinel: int, d: nat, k: nat, i: nat, cells: seq<Slot>)
    requires forall e | 0 <= e < |all| :: Tidy(all[e], size, sentinel)
    requires d < |all| && Standing(all[d], k, i, sentinel) && all[d][k][i].key != sentinel
    requires cells == CellsFrom(all[d], k, i, sentinel) + Trace(all, d + 1, sentinel)
    ensures Strip(cells, sentinel) == CellsFrom(all[d], k, i, sentinel) + PairsOf(all, d + 1, sentinel)
    ensures |cells| ==
            |CellsFrom(all[d], k, i, sentinel) + PairsOf(all, d + 1, sentinel)| + Empties(all, d + 1, sentinel)
  {
    var c := CellsFrom(all[d], k, i, sentinel);
    TracePairs(all, d + 1, size, sentinel);
    StripConcat(c, Trace(all, d + 1, sentinel), sentinel);
    PairsUsed(all[d][k][i..], sentinel);
    FlatUsed(all[d][k + 1..], sentinel);
    StripPairs(c, sentinel);
  }

  lemma PairsSplit(all: seq<seq<Row>>, d: nat, sentinel: int) returns (earlier: seq<Slot>)
    requires d < |all|
    ensures PairsOf(all, 0, sentinel) == earlier + (Flat(all[d], sentinel) + PairsOf(all, d + 1, sentinel))
  {
    earlier := PairsBefore(all, 0, d, sentinel);
  }

  lemma {:induction false} PairsBefore(all: seq<seq<Row>>, from: nat, d: nat, sentinel: int)
    returns (earlier: seq<Slot>)
    requires from <= d < |all|
    ensures PairsOf(all, from, sentinel) == earlier + PairsOf(all, d, sentinel)
    decreases d - from
  {
    if from == d {
      earlier := [];
    } else {
      var later := PairsBefore(all, from + 1, d, sentinel);
      earlier := Flat(all[from], sentinel) + later;
      Associate(Flat(all[from], sentinel), later, PairsOf(all, d, sentinel));
    }
  }

  // ---------------------------------------------------------------- lookup

  ghost predicate Lacks(s: seq<Slot>, key: int) {
    forall i | 0 <= i < |s| :: s[i].key != key
  }

  lemma {:induction false} PairsLack(row: Row, sentinel: int, n: nat, key: int)
    requires n <= |row| && (forall i | 0 <= i < n :: row[i].key != key) && (n < |row| ==> row[n].key == sentinel)
    ensures Lacks(Pairs(row, sentinel), key)
  {
    if n > 0 && row[0].key != sentinel {
      assert forall i | 0 <= i < |row| - 1 :: row[1..][i] == row[i + 1];
      PairsLack(row[1..], sentinel, n - 1, key);
    }
  }

  lemma {:induction false} FlatLacks(rows: seq<Row>, sentinel: int, key: int)
    requires forall k | 0 <= k < |rows| :: Lacks(Pairs(rows[k], sentinel), key)
    ensures Lacks(Flat(rows, sentinel), key)
  {
    if rows != [] {
      FlatLacks(rows[1..], sentinel, key);
    }
  }

  /** A pair of the data is assigned to the chain of its key. */
  lemma {:induction false} AssignedHas(data: seq<Slot>, model: int -> nat, at: nat)
    requires at < |data|
    ensures !Lacks(Assigned(data, model, model(data[at].key)), data[at].key)
  {
    var n, d := |data| - 1, model(data[at].key);
    var before := Assigned(data[..n], model, d);
    var all := Assigned(data, model, d);
    if at < n {
      AssignedHas(data[..n], model, at);
      var i :| 0 <= i < |before| && before[i].key == data[at].key;
      assert all[i] == before[i];
    } else {
      assert all[|before|] == data[at];
    }
  }

  lemma {:induction false} AssignedOnly(data: seq<Slot>, model: int -> nat, d: nat, key: int)
    requires Lacks(data, key)
    ensures Lacks(Assigned(data, model, d), key)
  {
    if data != [] {
      AssignedOnly(data[..|data| - 1], model, d, key);
    }
  }

  lemma {:induction false} RowInFlat(rows: seq<Row>, size: nat, sentinel: int, k: nat, i: nat)
    requires Tidy(rows, size, sentinel) && k < |rows| && i < size && rows[k][i].key != sentinel
    ensures !Lacks(Flat(rows, sentinel), rows[k][i].key)
  {
    var before := ChainEnd(rows, size, sentinel, k, i);
    assert Flat(rows, sentinel)[|before|] == CellsFrom(rows, k, i, sentinel)[0] == rows[k][i];
  }
}
