/** A directory of buckets of key-payload pairs, as the hash tables have it, and the map it stands for. */
module PairBuckets {
  datatype Slot = Slot(key: int, payload: int)

  type Buckets = seq<seq<Slot>>

  /** No free slot comes before a used one. */
  ghost predicate Packed(slots: seq<Slot>, sentinel: int) {
    forall i, j | 0 <= i < j < |slots| && slots[j].key != sentinel :: slots[i].key != sentinel
  }

  /** The number of buckets, their size, and the key that marks a free slot. */
  datatype Layout = Layout(size: nat, bucketSize: nat, sentinel: int)
  {
    predicate Valid() {
      size > 0 && bucketSize > 0
    }

    function Empty(): Buckets {
      seq(size, _ => seq(bucketSize, _ => Slot(sentinel, 0)))
    }

    ghost predicate Shape(bs: Buckets) {
      |bs| == size && forall b | 0 <= b < |bs| :: |bs[b]| == bucketSize
    }

    /** Slot `i` of bucket `b` holds a pair of `m`, or nothing. */
    ghost predicate Sound(bs: Buckets, m: map<int, int>, b: nat, i: nat)
      requires b < |bs| && i < |bs[b]|
    {
      bs[b][i].key != sentinel ==>
        bs[b][i].key in m && m[bs[b][i].key] == bs[b][i].payload
    }

    /** Some slot holds the key. */
    ghost predicate Somewhere(bs: Buckets, key: int) {
      exists b, i :: 0 <= b < |bs| && 0 <= i < |bs[b]| && bs[b][i].key == key
    }

    ghost predicate Once(bs: Buckets) {
      forall b, i, c, j | 0 <= b < |bs| && 0 <= i < |bs[b]| && 0 <= c < |bs| && 0 <= j < |bs[c]| &&
                          bs[b][i].key == bs[c][j].key != sentinel :: b == c && i == j
    }

    /** The buckets hold exactly the pairs of `m`, each key once, to the left of the free slots. */
    ghost predicate Represents(bs: Buckets, m: map<int, int>) {
      && Shape(bs) && sentinel !in m
      && (forall b, i | 0 <= b < |bs| && 0 <= i < |bs[b]| :: Sound(bs, m, b, i))
      && (forall k | k in m :: Somewhere(bs, k))
      && Once(bs)
      && (forall b | 0 <= b < |bs| :: Packed(bs[b], sentinel))
    }

    /** The buckets determine the map. */
    lemma RepresentsOne(bs: Buckets, m: map<int, int>, w: map<int, int>)
      requires Represents(bs, m) && Represents(bs, w)
      ensures m == w
    {
      forall k | k in m.Keys
        ensures k in w.Keys && m[k] == w[k]
      {
        SamePair(bs, m, w, k);
      }
      forall k | k in w.Keys
        ensures k in m.Keys
      {
        SamePair(bs, w, m, k);
      }
    }

    lemma SamePair(bs: Buckets, m: map<int, int>, w: map<int, int>, k: int)
      requires Represents(bs, m) && Represents(bs, w) && k in m
      ensures k in w && w[k] == m[k]
    {
      var b, i :| 0 <= b < |bs| && 0 <= i < |bs[b]| && bs[b][i].key == k;
      assert Sound(bs, m, b, i) && Sound(bs, w, b, i);
    }

    function Written(bs: Buckets, b: nat, i: nat, slot: Slot): Buckets
      requires b < |bs| && i < |bs[b]|
    {
      bs[b := bs[b][i := slot]]
    }

    lemma WrittenHas(bs: Buckets, b: nat, i: nat, slot: Slot, k: int)
      requires Shape(bs) && b < |bs| && i < |bs[b]|
      ensures Shape(Written(bs, b, i, slot)) && Somewhere(Written(bs, b, i, slot), slot.key)
      ensures Somewhere(bs, k) && k != bs[b][i].key ==> Somewhere(Written(bs, b, i, slot), k)
    {
      var r: Buckets := Written(bs, b, i, slot);
      assert r[b][i].key == slot.key;
      if Somewhere(bs, k) && k != bs[b][i].key {
        var c, j :| 0 <= c < |bs| && 0 <= j < |bs[c]| && bs[c][j].key == k;
        assert r[c][j] == bs[c][j];
      }
    }

    /** What a key is replaced by in the map when its slot is overwritten. */
    ghost function Replaced(m: map<int, int>, old0: int, slot: Slot): map<int, int> {
      (m - {old0})[slot.key := slot.payload]
    }

    /** A slot is overwritten: by its own key, in a packed bucket when free, or by a key that is nowhere yet. */
    lemma WriteSlot(bs: Buckets, m: map<int, int>, b: nat, i: nat, slot: Slot)
      requires Represents(bs, m) && b < size && i < bucketSize && slot.key != sentinel
      requires slot.key == bs[b][i].key || slot.key !in m
      requires forall j | 0 <= j < i :: bs[b][j].key != sentinel
      ensures Represents(Written(bs, b, i, slot), Replaced(m, bs[b][i].key, slot))
    {
      var r: Buckets, w := Written(bs, b, i, slot), Replaced(m, bs[b][i].key, slot);
      WriteSound(bs, m, b, i, slot);
      WriteOnce(bs, m, b, i, slot);
      forall k | k in w
        ensures Somewhere(r, k)
      {
        WrittenHas(bs, b, i, slot, k);
      }
    }

    lemma WriteSound(bs: Buckets, m: map<int, int>, b: nat, i: nat, slot: Slot)
      requires Represents(bs, m) && b < size && i < bucketSize && slot.key != sentinel
      requires slot.key == bs[b][i].key || slot.key !in m
      ensures Shape(Written(bs, b, i, slot))
      ensures forall c, j | 0 <= c < size && 0 <= j < bucketSize ::
                Sound(Written(bs, b, i, slot), Replaced(m, bs[b][i].key, slot), c, j)
    {
      var r: Buckets, w := Written(bs, b, i, slot), Replaced(m, bs[b][i].key, slot);
      forall c, j | 0 <= c < size && 0 <= j < bucketSize
        ensures Sound(r, w, c, j)
      {
        if c != b || j != i {
          assert r[c][j] == bs[c][j] && Sound(bs, m, c, j);
        }
      }
    }

    lemma WriteOnce(bs: Buckets, m: map<int, int>, b: nat, i: nat, slot: Slot)
      requires Represents(bs, m) && b < size && i < bucketSize && slot.key != sentinel
      requires slot.key == bs[b][i].key || slot.key !in m
      ensures Once(Written(bs, b, i, slot))
    {
      var r: Buckets := Written(bs, b, i, slot);
      forall c, j | 0 <= c < size && 0 <= j < bucketSize && (c != b || j != i)
        ensures r[c][j] == bs[c][j] && r[c][j].key != slot.key
      {
        assert Sound(bs, m, c, j);
      }
    }

    /** How many slots are used. */
    ghost function Used(slots: seq<Slot>): nat {
      if slots == [] then 0 else Used(slots[..|slots| - 1]) + if slots[|slots| - 1].key == sentinel then 0 else 1
    }

    /** In a packed bucket the used slots are the first ones. */
    lemma {:induction false} UsedFirst(slots: seq<Slot>)
      requires Packed(slots, sentinel)
      ensures Used(slots) <= |slots|
      ensures forall i | 0 <= i < |slots| :: slots[i].key != sentinel <==> i < Used(slots)
    {
      if slots != [] {
        UsedFirst(slots[..|slots| - 1]);
      }
    }
  }

  /** The map of the payloads last written. */
  ghost function LastWritten(data: seq<(int, int)>): map<int, int> {
    if data == [] then map[] else LastWritten(data[..|data| - 1])[data[|data| - 1].0 := data[|data| - 1].1]
  }

  /** The keys of `m` are those of the data, and each has the payload of its last pair. */
  ghost predicate HasLast(m: map<int, int>, data: seq<(int, int)>) {
    && (forall k :: k in m <==> Occurs(data, k))
    && forall i | 0 <= i < |data| && IsLast(data, i) :: data[i].0 in m && m[data[i].0] == data[i].1
  }

  ghost predicate Occurs(data: seq<(int, int)>, k: int) {
    exists i :: 0 <= i < |data| && data[i].0 == k
  }

  /** No later pair has the key of pair `i`. */
  ghost predicate IsLast(data: seq<(int, int)>, i: nat)
    requires i < |data|
  {
    forall j | i < j < |data| :: data[j].0 != data[i].0
  }

  lemma {:induction false} LastWrittenHasLast(data: seq<(int, int)>)
    ensures HasLast(LastWritten(data), data)
  {
    if data != [] {
      LastWrittenHasLast(data[..|data| - 1]);
      OneMoreWritten(data, LastWritten(data[..|data| - 1]), LastWritten(data));
    }
  }

  lemma OneMoreWritten(data: seq<(int, int)>, before: map<int, int>, after: map<int, int>)
    requires data != [] && HasLast(before, data[..|data| - 1])
    requires after == before[data[|data| - 1].0 := data[|data| - 1].1]
    ensures HasLast(after, data)
  {
    var n := |data| - 1;
    forall k
      ensures k in after <==> Occurs(data, k)
    {
      if i :| 0 <= i < n && data[..n][i].0 == k {
        assert data[i].0 == k;
      }
      assert data[n].0 in after;
    }
    forall i | 0 <= i < |data| && IsLast(data, i)
      ensures data[i].0 in after && after[data[i].0] == data[i].1
    {
      if i < n {
        assert data[..n][i] == data[i] && IsLast(data[..n], i);
      }
    }
  }

  /** Nothing else is such a map. */
  lemma OneLast(data: seq<(int, int)>, m: map<int, int>, w: map<int, int>)
    requires HasLast(m, data) && HasLast(w, data)
    ensures m == w
  {
    forall k | k in m.Keys
      ensures k in w.Keys && m[k] == w[k]
    {
      assert Occurs(data, k) && data[..|data|] == data;
      var i := LastOf(data, k, |data|);
    }
    forall k | k in w.Keys
      ensures k in m.Keys
    {
      assert Occurs(data, k);
    }
  }

  lemma {:induction false} LastOf(data: seq<(int, int)>, k: int, n: nat) returns (i: nat)
    requires n <= |data| && Occurs(data[..n], k) && forall j | n <= j < |data| :: data[j].0 != k
    ensures i < |data| && data[i].0 == k && IsLast(data, i)
  {
    if data[n - 1].0 == k {
      i := n - 1;
    } else {
      i := LastOf(data, k, n - 1);
    }
  }
}
