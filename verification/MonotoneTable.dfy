/** The hash table of chained buckets whose directory index a monotone model predicts. The data are inserted in order,
    so an iterator that simply goes on from slot to slot, bucket to bucket and chain to chain passes them in order. */
module MonotoneTable {
  import opened Gates
  import opened PairBuckets
  import opened MonotoneRows

  class Bucket {
    var slots: Row
    var next: Bucket?

    constructor (size: nat, sentinel: int)
      ensures slots == FreeRow(size, sentinel) && next == null
    {
      slots, next := FreeRow(size, sentinel), null;
    }

    /** The pair takes the first free slot, if there is one. */
    method Insert(key: int, payload: int, sentinel: int) returns (ok: bool)
      modifies this
      ensures next == old(next) && (ok <==> !Full(old(slots), sentinel))
      ensures !ok ==> slots == old(slots)
      ensures ok ==> exists i ::
                       && 0 <= i < |old(slots)| && Full(old(slots)[..i], sentinel) && old(slots)[i].key == sentinel
                       && slots == old(slots)[i := Slot(key, payload)]
    {
      for i := 0 to |slots|
        invariant slots == old(slots) && next == old(next) && Full(slots[..i], sentinel)
      {
        if slots[i].key == sentinel {
          slots := slots[i := Slot(key, payload)];
          return true;
        }
      }
      assert slots[..|slots|] == slots;
      ok := false;
    }
  }

  type Chain = seq<Bucket>

  ghost function RowsOf(chain: Chain): (rows: seq<Row>)
    reads chain
    ensures |rows| == |chain| && forall k | 0 <= k < |chain| :: rows[k] == chain[k].slots
  {
    if chain == [] then [] else RowsOf(chain[..|chain| - 1]) + [chain[|chain| - 1].slots]
  }

  ghost function NextsOf(chain: Chain): (nexts: seq<Bucket?>)
    reads chain
    ensures |nexts| == |chain| && forall k | 0 <= k < |chain| :: nexts[k] == chain[k].next
  {
    if chain == [] then [] else NextsOf(chain[..|chain| - 1]) + [chain[|chain| - 1].next]
  }

  /** The buckets of a chain are linked in order. */
  ghost predicate Linked(chain: Chain, nexts: seq<Bucket?>) {
    && chain != [] && |nexts| == |chain| && (forall j, k | 0 <= j < k < |chain| :: chain[j] != chain[k])
    && (forall k | 0 <= k < |chain| - 1 :: nexts[k] == chain[k + 1])
    && nexts[|chain| - 1] == null
  }

  /** A chain in order. What this says is available wherever an index is named as Looked. */
  ghost predicate ChainOk(chain: Chain, size: nat, sentinel: int)
    reads chain
  {
    chain != [] && Sound(chain, NextsOf(chain), RowsOf(chain), size, sentinel)
  }

  ghost predicate Sound(chain: Chain, nexts: seq<Bucket?>, rows: seq<Row>, size: nat, sentinel: int) {
    forall u {:trigger Looked(u)} | Looked(u) :: Linked(chain, nexts) && Tidy(rows, size, sentinel)
  }

  lemma LookInto(chain: Chain, size: nat, sentinel: int)
    requires ChainOk(chain, size, sentinel)
    ensures Linked(chain, NextsOf(chain)) && Tidy(RowsOf(chain), size, sentinel)
  {
    assert Looked(0);
  }

  /** All buckets before place `k` of the chain are full, and the bucket there, if any, is `current`. */
  ghost predicate Passed(chain: Chain, size: nat, sentinel: int, k: nat, previous: Bucket, current: Bucket?)
    reads chain
  {
    && k <= |chain| && ChainOk(chain, size, sentinel)
    && (if k < |chain| then current == chain[k] else current == null)
    && previous == chain[if k == 0 then 0 else k - 1]
    && forall j | 0 <= j < k :: Full(RowsOf(chain)[j], sentinel)
  }

  /** The pair goes to the end of the chain, in a new bucket if all are full. */
  method InsertInChain(head: Bucket, size: nat, sentinel: int, key: int, payload: int, ghost chain0: Chain)
    returns (ghost chain: Chain)
    requires ChainOk(chain0, size, sentinel) && chain0[0] == head && key != sentinel
    modifies chain0
    ensures ChainOk(chain, size, sentinel) && chain[0] == head
    ensures chain == chain0 || (|chain| == |chain0| + 1 && chain[..|chain0|] == chain0 && fresh(chain[|chain0|]))
    ensures forall b | b in chain :: b in chain0 || fresh(b)
    ensures Flat(RowsOf(chain), sentinel) == old(Flat(RowsOf(chain0), sentinel)) + [Slot(key, payload)]
  {
    chain := chain0;
    var previous: Bucket := head;
    var current: Bucket? := head;
    ghost var k: nat := 0;
    while current != null
      invariant Passed(chain, size, sentinel, k, previous, current) && chain == chain0
      invariant RowsOf(chain) == old(RowsOf(chain0))
      decreases |chain| - k
    {
      var ok := InsertHere(current, size, sentinel, key, payload, chain, k, previous);
      if ok {
        return;
      }
      previous, current := current, current.next;
      k := k + 1;
    }
    assert Passed(chain, size, sentinel, |chain|, previous, null);
    chain := Append(previous, size, sentinel, key, payload, chain0);
  }

  /** The pair is put into bucket `k` of the chain, unless that is full. */
  method InsertHere(current: Bucket, size: nat, sentinel: int, key: int, payload: int, ghost chain: Chain, ghost k: nat,
                    ghost previous: Bucket)
    returns (ok: bool)
    requires Passed(chain, size, sentinel, k, previous, current) && key != sentinel
    modifies current
    ensures ChainOk(chain, size, sentinel)
    ensures ok ==> Flat(RowsOf(chain), sentinel) == old(Flat(RowsOf(chain), sentinel)) + [Slot(key, payload)]
    ensures !ok ==> RowsOf(chain) == old(RowsOf(chain)) && current.next == old(current.next)
    ensures !ok ==> Passed(chain, size, sentinel, k + 1, current, current.next)
  {
    LookInto(chain, size, sentinel);
    ghost var rows, nexts := RowsOf(chain), NextsOf(chain);
    ok := current.Insert(key, payload, sentinel);
    if ok {
      Filled(chain, rows, nexts, size, sentinel, k, Slot(key, payload));
    } else {
      assert RowsOf(chain) == rows && NextsOf(chain) == nexts;
    }
  }

  /** The pair has been put into the first free slot of the last bucket. */
  lemma Filled(chain: Chain, rows: seq<Row>, nexts: seq<Bucket?>, size: nat, sentinel: int, k: nat, slot: Slot)
    requires Linked(chain, nexts) && |rows| == |chain| && Tidy(rows, size, sentinel) && slot.key != sentinel
    requires k < |chain| && !Full(rows[k], sentinel)
    requires forall j | 0 <= j < |chain| :: chain[j].next == nexts[j] && (j != k ==> chain[j].slots == rows[j])
    requires exists i :: 0 <= i < size && Full(rows[k][..i], sentinel) && rows[k][i].key == sentinel &&
                         chain[k].slots == rows[k][i := slot]
    ensures ChainOk(chain, size, sentinel) && Flat(RowsOf(chain), sentinel) == Flat(rows, sentinel) + [slot]
  {
    var i :| 0 <= i < size && Full(rows[k][..i], sentinel) && rows[k][i].key == sentinel &&
             chain[k].slots == rows[k][i := slot];
    FillTidy(rows, size, sentinel, i, slot);
    assert RowsOf(chain) == rows[k := rows[k][i := slot]] && NextsOf(chain) == nexts;
  }

  /** All buckets are full: the pair goes to a new one. */
  method Append(previous: Bucket, size: nat, sentinel: int, key: int, payload: int, ghost chain0: Chain)
    returns (ghost chain: Chain)
    requires Passed(chain0, size, sentinel, |chain0|, previous, null) && key != sentinel
    modifies previous
    ensures ChainOk(chain, size, sentinel) && |chain| == |chain0| + 1 && chain[..|chain0|] == chain0
    ensures fresh(chain[|chain0|])
    ensures Flat(RowsOf(chain), sentinel) == old(Flat(RowsOf(chain0), sentinel)) + [Slot(key, payload)]
  {
    LookInto(chain0, size, sentinel);
    ghost var rows := RowsOf(chain0);
    var added := NewBucket(size, sentinel, key, payload);
    previous.next := added;
    chain := chain0 + [added];
    Extended(chain0, chain, rows, added, size, sentinel, Slot(key, payload));
  }

  /** A bucket with one pair. */
  method NewBucket(size: nat, sentinel: int, key: int, payload: int) returns (added: Bucket)
    requires size > 0
    ensures fresh(added) && added.next == null && added.slots == FreeRow(size, sentinel)[0 := Slot(key, payload)]
  {
    added := new Bucket(size, sentinel);
    assert FreeRow(size, sentinel)[0].key == sentinel;
    var ok := added.Insert(key, payload, sentinel);
  }

  /** The new bucket has been linked to the end of a chain whose buckets are all full. */
  lemma Extended(chain0: Chain, chain: Chain, rows: seq<Row>, added: Bucket, size: nat, sentinel: int, slot: Slot)
    requires |rows| == |chain0| && Tidy(rows, size, sentinel) && Full(rows[|rows| - 1], sentinel)
    requires slot.key != sentinel
    requires chain == chain0 + [added] && added.slots == FreeRow(size, sentinel)[0 := slot] && added.next == null
    requires forall k | 0 <= k < |chain0| :: chain0[k].slots == rows[k] && chain0[k] != added
    requires forall k | 0 <= k < |chain0| :: chain0[k].next == chain[k + 1]
    requires forall j, k | 0 <= j < k < |chain0| :: chain0[j] != chain0[k]
    ensures ChainOk(chain, size, sentinel) && Flat(RowsOf(chain), sentinel) == Flat(rows, sentinel) + [slot]
  {
    ExtendTidy(rows, size, sentinel, slot);
    assert RowsOf(chain) == rows + [FreeRow(size, sentinel)[0 := slot]];
    assert Linked(chain, NextsOf(chain));
  }

  ghost predicate Disjoint(x: Chain, y: Chain) {
    forall j, k | 0 <= j < |x| && 0 <= k < |y| :: x[j] != y[k]
  }

  // ---------------------------------------------------------------- the table

  /** A chain of buckets with what is in them. */
  datatype Trail = Trail(chain: Chain, nexts: seq<Bucket?>, rows: seq<Row>)
  {
    ghost predicate Good(head: Bucket, size: nat, sentinel: int) {
      chain != [] && chain[0] == head && |nexts| == |rows| == |chain| && Sound(chain, nexts, rows, size, sentinel)
    }

    ghost predicate Inside(repr: set<Bucket>) {
      forall k | 0 <= k < |chain| :: chain[k] in repr
    }

    /** The buckets in the heap are as the trail says. */
    ghost predicate Mirrored()
      reads chain
    {
      && |nexts| == |rows| == |chain|
      && forall k | 0 <= k < |chain| :: chain[k].slots == rows[k] && chain[k].next == nexts[k]
    }

    lemma MirrorsChain(head: Bucket, size: nat, sentinel: int)
      requires Good(head, size, sentinel) && Mirrored()
      ensures ChainOk(chain, size, sentinel) && RowsOf(chain) == rows
    {
      assert RowsOf(chain) == rows && NextsOf(chain) == nexts;
    }
  }

  class Table {
    const size: nat
    const sentinel: int
    const model: int -> nat
    var buckets: seq<Bucket>
    ghost var trails: seq<Trail>
    ghost var Repr: set<Bucket>

    ghost predicate Apart()
      reads this
    {
      forall d, e | 0 <= d < |trails| && 0 <= e < |trails| && d != e :: Disjoint(trails[d].chain, trails[e].chain)
    }

    ghost predicate Built()
      reads this, Repr
    {
      && size > 0 && |trails| == |buckets| && forall u {:trigger Opened(u)} | Opened(u) :: Whole()
    }

    /** The chains are in order and apart, and in the heap as the trails say. */
    ghost predicate Whole()
      requires |trails| == |buckets|
      reads this, Repr
    {
      && Apart()
      && (forall d | 0 <= d < |trails| :: trails[d].Good(buckets[d], size, sentinel))
      && (forall d | 0 <= d < |trails| :: trails[d].Inside(Repr))
      && (forall d | 0 <= d < |trails| :: trails[d].Mirrored())
    }

    /** The model predicts a directory index for every key. */
    ghost predicate Valid()
      reads this, Repr
    {
      Built() && forall key :: model(key) < |buckets|
    }

    /** The rows of all chains. */
    ghost function Rows(): (all: seq<seq<Row>>)
      reads this
      ensures |all| == |trails| && forall d | 0 <= d < |all| :: all[d] == trails[d].rows
    {
      seq(|trails|, d requires 0 <= d < |trails| reads this => trails[d].rows)
    }

    constructor (size: nat, sentinel: int, model: int -> nat, n: nat)
      requires size > 0 && forall key :: model(key) < n
      ensures Valid() && fresh(Repr) && this.size == size && this.sentinel == sentinel && this.model == model
      ensures |buckets| == n && forall d | 0 <= d < n :: Flat(Rows()[d], sentinel) == []
    {
      this.size, this.sentinel, this.model := size, sentinel, model;
      buckets, trails, Repr := [], [], {};
      new;
      for d := 0 to n
        invariant Built() && |buckets| == d && fresh(Repr)
        invariant forall e | 0 <= e < d :: Flat(trails[e].rows, sentinel) == []
      {
        AddChain();
      }
    }

    /** One more directory bucket, which is free. */
    method AddChain()
      requires Built()
      modifies this
      ensures Built() && |buckets| == |old(buckets)| + 1 && fresh(Repr - old(Repr))
      ensures |trails| == |old(trails)| + 1 && trails[..|old(trails)|] == old(trails)
      ensures Flat(trails[|old(trails)|].rows, sentinel) == []
    {
      assert Opened(0);
      EmptyTidy(size, sentinel);
      var b := new Bucket(size, sentinel);
      ghost var trail := Trail([b], [null], [FreeRow(size, sentinel)]);
      assert trail.Good(b, size, sentinel);
      buckets, trails, Repr := buckets + [b], trails + [trail], Repr + {b};
    }

    /** The pair goes to the end of the chain that the model predicts; nothing else changes. */
    method Insert(key: int, payload: int)
      requires Valid() && key != sentinel
      modifies this, Repr
      ensures Valid() && fresh(Repr - old(Repr)) && buckets == old(buckets)
      ensures |trails| == |old(trails)| && trails == old(trails)[model(key) := trails[model(key)]]
      ensures Flat(trails[model(key)].rows, sentinel) ==
              Flat(old(trails)[model(key)].rows, sentinel) + [Slot(key, payload)]
    {
      assert Opened(0);
      var index := model(key);
      ghost var trail := Extend(index, key, payload);
      forall d | 0 <= d < |trails| && d != index
        ensures trails[d].Mirrored() && Disjoint(trails[d].chain, trail.chain)
      {
        assert Disjoint(trails[d].chain, trails[index].chain) && trails[d].Inside(Repr);
        assert forall k | 0 <= k < |trail.chain| :: trail.chain[k] in trail.chain;
      }
      Replace(index, trail);
    }

    /** Chain `index` is extended. */
    method Extend(index: nat, key: int, payload: int) returns (ghost trail: Trail)
      requires Built() && index < |trails| && key != sentinel
      modifies trails[index].chain
      ensures trail.Good(buckets[index], size, sentinel) && trail.Mirrored()
      ensures Flat(trail.rows, sentinel) == Flat(trails[index].rows, sentinel) + [Slot(key, payload)]
      ensures forall b | b in trail.chain :: b in trails[index].chain || fresh(b)
    {
      assert Opened(0);
      trails[index].MirrorsChain(buckets[index], size, sentinel);
      ghost var chain := InsertInChain(buckets[index], size, sentinel, key, payload, trails[index].chain);
      trail := Trail(chain, NextsOf(chain), RowsOf(chain));
    }

    /** Chain `index` has changed: the ghost fields follow. */
    ghost method Replace(index: nat, trail: Trail)
      requires size > 0 && index < |trails| == |buckets| && Apart()
      requires forall d | 0 <= d < |trails| && d != index ::
        trails[d].Good(buckets[d], size, sentinel) && trails[d].Inside(Repr) && trails[d].Mirrored() &&
        Disjoint(trails[d].chain, trail.chain)
      requires trail.Good(buckets[index], size, sentinel) && trail.Mirrored()
      modifies this`trails, this`Repr
      ensures Built() && Repr == old(Repr) + (set b | b in trail.chain) && trails == old(trails)[index := trail]
    {
      trails, Repr := trails[index := trail], Repr + set b | b in trail.chain;
      forall d | 0 <= d < |trails|
        ensures trails[d].Inside(Repr)
      {
      }
    }

    /** The chains hold the data, each pair in the chain the model predicts, in order. */
    ghost predicate Loaded(data: seq<Slot>)
      reads this
    {
      forall d | 0 <= d < |trails| :: Flat(trails[d].rows, sentinel) == Assigned(data, model, d)
    }

    /** The data are sorted by key and inserted. */
    method Load(data: seq<Slot>) returns (sorted: seq<Slot>)
      requires Valid() && Loaded([]) && forall i | 0 <= i < |data| :: data[i].key != sentinel
      modifies this, Repr
      ensures Valid() && fresh(Repr - old(Repr)) && buckets == old(buckets)
      ensures InOrder(sorted) && multiset(sorted) == multiset(data) && Loaded(sorted)
    {
      sorted := SortPairs(data);
      forall i | 0 <= i < |sorted|
        ensures sorted[i].key != sentinel
      {
        assert sorted[i] in multiset(data);
        assert sorted[i] in data;
      }
      for i := 0 to |sorted|
        invariant Valid() && fresh(Repr - old(Repr)) && buckets == old(buckets) && Loaded(sorted[..i])
      {
        ghost var before := trails;
        Insert(sorted[i].key, sorted[i].payload);
        OneMore(before, sorted, i);
      }
      assert sorted[..|sorted|] == sorted;
    }

    lemma OneMore(before: seq<Trail>, data: seq<Slot>, i: nat)
      requires i < |data| && |before| == |trails| && model(data[i].key) < |trails|
      requires forall d | 0 <= d < |before| :: Flat(before[d].rows, sentinel) == Assigned(data[..i], model, d)
      requires trails == before[model(data[i].key) := trails[model(data[i].key)]]
      requires Flat(trails[model(data[i].key)].rows, sentinel) ==
               Flat(before[model(data[i].key)].rows, sentinel) + [data[i]]
      ensures Loaded(data[..i + 1])
    {
      assert data[..i + 1][..i] == data[..i];
    }

    /** What an iterator passes from chain `d` on. */
    ghost function TraceFrom(d: nat): seq<Slot>
      requires d <= |trails|
      reads this
    {
      Trace(Rows(), d, sentinel)
    }

    /** The second sequence is the first one without its first cell. */
    static ghost predicate Follows(cells: seq<Slot>, rest: seq<Slot>) {
      cells != [] && cells[1..] == rest
    }

    /** An iterator may stand at slot `i` of bucket `b`, which is at place `k` of chain `d`, or past the end. */
    ghost predicate StandsAt(d: nat, i: nat, b: Bucket?, k: nat)
      reads this
    {
      if b == null then d == |trails| && i == 0
      else d < |trails| && k < |trails[d].chain| && b == trails[d].chain[k] && Standing(trails[d].rows, k, i, sentinel)
    }

    /** What it still passes. */
    ghost function Ahead(d: nat, i: nat, b: Bucket?, k: nat): seq<Slot>
      requires StandsAt(d, i, b, k)
      reads this
    {
      if b == null then [] else CellsFrom(trails[d].rows, k, i, sentinel) + TraceFrom(d + 1)
    }

    /** The first bucket of chain `d`, if there is such a chain. */
    function Head(d: nat): Bucket?
      reads this
    {
      if d < |buckets| then buckets[d] else null
    }

    /** The start of chain `d`, or the end. */
    lemma StartAhead(d: nat)
      requires Built() && d <= |trails|
      ensures
        StandsAt(d, 0, Head(d), 0) && Ahead(d, 0, Head(d), 0) == TraceFrom(d)
    {
      if d < |trails| {
        assert Opened(0);
        trails[d].MirrorsChain(buckets[d], size, sentinel);
        LookInto(trails[d].chain, size, sentinel);
        StartStanding(trails[d].rows, size, sentinel);
      }
    }

    /** The first cell ahead is the slot at which the iterator stands, and the chain is in order. */
    lemma HereIs(d: nat, i: nat, b: Bucket, k: nat)
      requires Built() && StandsAt(d, i, b, k)
      ensures |trails[d].rows| == |trails[d].nexts| == |trails[d].chain|
      ensures i < size && b.slots == trails[d].rows[k] && b.next == trails[d].nexts[k]
      ensures Tidy(trails[d].rows, size, sentinel)
      ensures Linked(trails[d].chain, trails[d].nexts)
      ensures Ahead(d, i, b, k) != [] && Ahead(d, i, b, k)[0] == b.slots[i]
    {
      assert Looked(0) && Opened(0);
      assert trails[d].Mirrored() && trails[d].Good(buckets[d], size, sentinel);
    }

    lemma AheadIs(d: nat, i: nat, b: Bucket, k: nat)
      requires Built() && StandsAt(d, i, b, k)
      ensures d < |Rows()| && Standing(Rows()[d], k, i, sentinel)
      ensures Ahead(d, i, b, k) == CellsFrom(Rows()[d], k, i, sentinel) + Trace(Rows(), d + 1, sentinel)
    {
    }

    lemma AheadInRow(d: nat, i: nat, b: Bucket, k: nat)
      requires Built() && StandsAt(d, i, b, k) && i + 1 < size && i + 1 < |b.slots| && b.slots[i + 1].key != sentinel
      ensures StandsAt(d, i + 1, b, k) && Follows(Ahead(d, i, b, k), Ahead(d, i + 1, b, k))
    {
      HereIs(d, i, b, k);
      NextSlot(trails[d].rows, size, sentinel, k, i);
    }

    lemma AheadInChain(d: nat, i: nat, b: Bucket, k: nat)
      requires Built() && StandsAt(d, i, b, k) && i < |b.slots| == size
      requires i + 1 == size || b.slots[i + 1].key == sentinel
      requires b.next != null
      ensures StandsAt(d, 0, b.next, k + 1) && Follows(Ahead(d, i, b, k), Ahead(d, 0, b.next, k + 1))
    {
      HereIs(d, i, b, k);
      NextRow(trails[d].rows, size, sentinel, k, i);
    }

    lemma AheadOfChain(d: nat, i: nat, b: Bucket, k: nat)
      requires Built() && StandsAt(d, i, b, k) && i < |b.slots| == size
      requires i + 1 == size || b.slots[i + 1].key == sentinel
      requires b.next == null
      ensures
        StandsAt(d + 1, 0, Head(d + 1), 0) && Follows(Ahead(d, i, b, k), Ahead(d + 1, 0, Head(d + 1), 0))
    {
      HereIs(d, i, b, k);
      LastSlot(trails[d].rows, size, sentinel, k, i);
      StartAhead(d + 1);
    }

    /** To the next slot; to the next bucket at the end of a bucket or of its pairs; to the next directory bucket at the
        end of a chain. */
    method Next(d: nat, i: nat, b: Bucket, ghost k: nat) returns (d': nat, i': nat, b': Bucket?, ghost k': nat)
      requires Built() && StandsAt(d, i, b, k)
      ensures StandsAt(d', i', b', k') && Follows(Ahead(d, i, b, k), Ahead(d', i', b', k'))
    {
      HereIs(d, i, b, k);
      d', i', b', k' := d, i + 1, b, k;
      if i' >= size || b.slots[i'].key == sentinel {
        i', b' := 0, b.next;
        if b' == null {
          AheadOfChain(d, i, b, k);
          d', k' := d + 1, 0;
          if d' < |buckets| {
            b' := buckets[d'];
          }
        } else {
          AheadInChain(d, i, b, k);
          k' := k + 1;
        }
      } else {
        AheadInRow(d, i, b, k);
      }
    }
  }

  // ---------------------------------------------------------------- iteration

  class Iterator {
    const table: Table
    var directoryInd: nat
    var bucketInd: nat
    var current: Bucket?
    /** The place of the current bucket in its chain. */
    ghost var place: nat

    ghost predicate Valid()
      reads this, table, table.Repr
    {
      table.Valid() && table.StandsAt(directoryInd, bucketInd, current, place)
    }

    /** What is still to be passed. */
    ghost function Remaining(): seq<Slot>
      requires Valid()
      reads this, table, table.Repr
    {
      table.Ahead(directoryInd, bucketInd, current, place)
    }

    constructor (table: Table, directoryInd: nat, bucketInd: nat, current: Bucket?, ghost place: nat)
      ensures this.table == table && this.directoryInd == directoryInd && this.bucketInd == bucketInd
      ensures this.current == current && this.place == place
    {
      this.table, this.directoryInd, this.bucketInd := table, directoryInd, bucketInd;
      this.current, this.place := current, place;
    }

    /** The pair at which the iterator stands. */
    method Cell() returns (cell: Slot)
      requires Valid() && current != null
      ensures Remaining() != [] && cell == Remaining()[0]
    {
      table.HereIs(directoryInd, bucketInd, current, place);
      cell := current.slots[bucketInd];
    }

    method Advance()
      requires Valid() && current != null
      modifies this
      ensures Valid() && old(Remaining()) != [] && Remaining() == old(Remaining())[1..]
    {
      var d, i, b;
      ghost var k;
      d, i, b, k := table.Next(directoryInd, bucketInd, current, place);
      MoveTo(d, i, b, k);
    }

    method MoveTo(d: nat, i: nat, b: Bucket?, ghost k: nat)
      requires table.Valid()
      modifies this
      ensures table.Valid() && directoryInd == d && bucketInd == i && current == b && place == k
    {
      directoryInd, bucketInd, current, place := d, i, b, k;
    }

    /** The pair at which the iterator stands; then on to the next. */
    method Pass() returns (cell: Slot)
      requires Valid() && current != null
      modifies this
      ensures Valid() && [cell] + Remaining() == old(Remaining())
    {
      cell := Cell();
      Advance();
    }
  }

  // ---------------------------------------------------------------- lookup

  /** The first slot with the key before the first free slot, or the size of the bucket. */
  method SearchBucket(b: Bucket, key: int, sentinel: int) returns (i: nat)
    requires key != sentinel
    ensures i <= |b.slots| && (i < |b.slots| ==> b.slots[i].key == key)
    ensures i == |b.slots| ==> Lacks(Pairs(b.slots, sentinel), key)
  {
    i := 0;
    while i < |b.slots|
      invariant i <= |b.slots| && forall j | 0 <= j < i :: b.slots[j].key != key
    {
      if b.slots[i].key == sentinel {
        PairsLack(b.slots, sentinel, i, key);
        return |b.slots|;
      }
      if b.slots[i].key == key {
        return;
      }
      i := i + 1;
    }
    PairsLack(b.slots, sentinel, i, key);
  }

  /** The bucket and the slot with the key in chain `d`, or no bucket. */
  method Search(table: Table, d: nat, key: int) returns (bucket: Bucket?, i: nat, ghost k: nat)
    requires table.Valid() && key != table.sentinel && d < |table.trails|
    ensures bucket == null ==> Lacks(Flat(table.trails[d].rows, table.sentinel), key)
    ensures bucket != null ==> k < |table.trails[d].chain| && bucket == table.trails[d].chain[k]
    ensures bucket != null ==> i < |bucket.slots| && bucket.slots[i].key == key
  {
    ghost var trail := table.trails[d];
    assert Looked(0) && Opened(0);
    assert trail.Good(table.buckets[d], table.size, table.sentinel) && trail.Mirrored();
    bucket, i, k := table.buckets[d], 0, 0;
    while bucket != null
      invariant k <= |trail.chain| && (if k < |trail.chain| then bucket == trail.chain[k] else bucket == null)
      invariant forall j | 0 <= j < k :: Lacks(Pairs(trail.rows[j], table.sentinel), key)
      decreases |trail.chain| - k
    {
      i := SearchBucket(bucket, key, table.sentinel);
      if i < |bucket.slots| {
        return;
      }
      bucket, k := bucket.next, k + 1;
    }
    FlatLacks(trail.rows, table.sentinel, key);
  }

  /** An iterator at a pair with the key, or past the end if the chain of the key has none. */
  method Find(table: Table, key: int) returns (it: Iterator)
    requires table.Valid() && key != table.sentinel
    ensures fresh(it) && it.table == table && it.Valid()
    ensures it.current != null ==> it.directoryInd == table.model(key)
    ensures it.current != null ==> it.Remaining() != [] && it.Remaining()[0].key == key
    ensures it.current == null <==> Lacks(Flat(table.trails[table.model(key)].rows, table.sentinel), key)
  {
    var d := table.model(key);
    var bucket, i, k := Search(table, d, key);
    if bucket != null {
      it := FoundAt(table, d, i, bucket, k, key);
    } else {
      it := new Iterator(table, |table.buckets|, 0, null, 0);
    }
  }

  method FoundAt(table: Table, d: nat, i: nat, bucket: Bucket, ghost k: nat, key: int) returns (it: Iterator)
    requires table.Valid() && key != table.sentinel && d < |table.trails| && k < |table.trails[d].chain|
    requires bucket == table.trails[d].chain[k] && i < |bucket.slots| && bucket.slots[i].key == key
    ensures fresh(it) && it.table == table && it.Valid() && it.current != null && it.directoryInd == d
    ensures it.Remaining() != [] && it.Remaining()[0].key == key
    ensures !Lacks(Flat(table.trails[d].rows, table.sentinel), key)
  {
    ghost var trail := table.trails[d];
    assert Looked(0) && Opened(0);
    assert trail.Good(table.buckets[d], table.size, table.sentinel) && trail.Mirrored();
    table.HereIs(d, i, bucket, k);
    RowInFlat(trail.rows, table.size, table.sentinel, k, i);
    it := new Iterator(table, d, i, bucket, k);
  }

  /** All cells that an iterator passes up to the end. */
  method Walk(it: Iterator) returns (cells: seq<Slot>)
    requires it.Valid()
    modifies it
    ensures cells == old(it.Remaining()) && it.current == null
  {
    cells := [];
    ghost var all := it.Remaining();
    while it.current != null
      invariant it.Valid() && cells + it.Remaining() == all
      decreases |all| - |cells|
    {
      cells := PassInto(it, cells, all);
    }
  }

  method PassInto(it: Iterator, cells0: seq<Slot>, ghost all: seq<Slot>) returns (cells: seq<Slot>)
    requires it.Valid() && it.current != null && cells0 + it.Remaining() == all
    modifies it
    ensures it.Valid() && cells + it.Remaining() == all && |cells| == |cells0| + 1
  {
    var cell := it.Pass();
    cells := cells0 + [cell];
  }

  /** From the pair of a key on, an iterator passes exactly the data from that key on, in order, and one free slot for
      each empty chain after its own; then it is at the end. */
  method VisitFrom(table: Table, key: int, ghost data: seq<Slot>) returns (cells: seq<Slot>)
    requires table.Valid() && key != table.sentinel && table.Loaded(data)
    requires Monotone(data, table.model) && Distinct(data)
    ensures Lacks(data, key) ==> cells == []
    ensures forall at | 0 <= at < |data| && data[at].key == key :: PassesRest(table, data, key, at, cells)
  {
    var it := Find(table, key);
    ghost var d, i, b, k := it.directoryInd, it.bucketInd, it.current, it.place;
    cells := Walk(it);
    if Lacks(data, key) {
      AssignedOnly(data, table.model, table.model(key), key);
    }
    forall at | 0 <= at < |data| && data[at].key == key
      ensures PassesRest(table, data, key, at, cells)
    {
      AssignedHas(data, table.model, at);
      RestOfData(table, key, data, at, d, i, b, k, cells);
    }
  }

  /** Without the free slots the cells are the data from place `at` on, and there is one free slot for each empty chain
      after the one of the key. */
  ghost predicate PassesRest(table: Table, data: seq<Slot>, key: int, at: nat, cells: seq<Slot>)
    requires at <= |data| && table.model(key) < |table.trails|
    reads table
  {
    && Strip(cells, table.sentinel) == data[at..]
    && |cells| == |data| - at + Empties(table.Rows(), table.model(key) + 1, table.sentinel)
  }

  lemma AllSorted(table: Table, data: seq<Slot>)
    requires table.Valid() && table.Loaded(data)
    ensures Sorted(table.Rows(), table.size, table.sentinel, data, table.model)
  {
    assert Opened(0);
    var all := table.Rows();
    forall e | 0 <= e < |all|
      ensures Tidy(all[e], table.size, table.sentinel) && Flat(all[e], table.sentinel) == Assigned(data, table.model, e)
    {
      table.trails[e].MirrorsChain(table.buckets[e], table.size, table.sentinel);
      LookInto(table.trails[e].chain, table.size, table.sentinel);
    }
  }

  lemma RestOfData(table: Table, key: int, data: seq<Slot>, at: nat, d: nat, i: nat, b: Bucket?, k: nat,
                   cells: seq<Slot>)
    requires table.Valid() && key != table.sentinel && table.Loaded(data)
    requires Monotone(data, table.model) && Distinct(data)
    requires d == table.model(key) && at < |data| && data[at].key == key
    requires b != null && table.StandsAt(d, i, b, k)
    requires cells == table.Ahead(d, i, b, k) && cells != [] && cells[0].key == key
    ensures PassesRest(table, data, key, at, cells)
  {
    AllSorted(table, data);
    table.HereIs(d, i, b, k);
    table.AheadIs(d, i, b, k);
    VisitsRest(table.Rows(), table.size, table.sentinel, data, table.model, d, k, i, at, cells);
  }
}
