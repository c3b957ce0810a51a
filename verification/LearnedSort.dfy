/** Sorting with a trained model: keys are shuffled into major and then minor buckets by predictions that may be
    arbitrarily wrong, overflow goes to a spill bucket, each minor bucket is counting-sorted back into the array the
    major buckets are still being read from, and the result is merged with the spill bucket. */
module LearnedSort {
  import opened Gates
  import opened SortSpec
  import opened CountingSort
  import opened Shelves

  /** A prediction forced into 0..hi. */
  function Clamp(x: int, hi: nat): nat {
    if x < 0 then 0 else if x > hi then hi else x
  }

  /** The hyperparameters, and the predictions as functions about which nothing is assumed. */
  datatype Model = Model(fanout: nat, minors: nat, threshold: nat, batch: nat,
                         bucket: int -> int, leaf: int -> int, minor: (int, int) -> int,
                         rank: (int, int, int, int) -> int)
  {
    predicate Valid() {
      fanout > 0 && minors > 0 && 0 < threshold < 0x1_0000_0000 && batch > 0
    }

    /** The major bucket of a key. */
    function Bucket(key: int): (b: nat)
      requires Valid()
      ensures b < fanout
    {
      Clamp(bucket(key), fanout - 1)
    }

    /** The minor bucket of a key within major bucket `i`. */
    function Minor(i: nat, key: int): (b: nat)
      requires Valid()
      ensures b < minors
    {
      Clamp(minor(i, key), minors - 1)
    }

    /** The place of a key within minor bucket `j` of major bucket `i` that leaf model `l` predicts. */
    function Rank(i: nat, j: nat, l: int, key: int): (r: nat)
      requires Valid()
      ensures r < threshold
    {
      Clamp(rank(i, j, l, key), threshold - 1)
    }
  }

  /** The places predicted are the nearest to the predictions that there are. */
  lemma Nearest(m: Model, i: nat, j: nat, l: int, key: int, p: nat)
    requires m.Valid()
    ensures p < m.fanout ==> Away(m.Bucket(key), m.bucket(key)) <= Away(p, m.bucket(key))
    ensures p < m.minors ==> Away(m.Minor(i, key), m.minor(i, key)) <= Away(p, m.minor(i, key))
    ensures p < m.threshold ==> Away(m.Rank(i, j, l, key), m.rank(i, j, l, key)) <= Away(p, m.rank(i, j, l, key))
  {
  }

  function Away(x: int, y: int): nat {
    if x < y then y - x else x - y
  }

  // ---------------------------------------------------------------- the front of the result

  /** The first `tot` elements of `s` are ascending, and they are `front`. */
  ghost predicate Front(s: seq<int>, tot: nat, front: multiset<int>) {
    tot <= |s| && forall u {:trigger Looked(u)} | Looked(u) :: Ascending(s[..tot]) && multiset(s[..tot]) == front
  }

  lemma LookAtFront(s: seq<int>, tot: nat, front: multiset<int>)
    requires Front(s, tot, front)
    ensures Ascending(s[..tot]) && multiset(s[..tot]) == front
  {
    assert Looked(0);
  }

  // ---------------------------------------------------------------- what goes where

  ghost function Buckets(m: Model, keys: seq<int>): (dest: seq<nat>)
    requires m.Valid()
    ensures |dest| == |keys| && forall i | 0 <= i < |keys| :: dest[i] == m.Bucket(keys[i])
  {
    seq(|keys|, i requires 0 <= i < |keys| => m.Bucket(keys[i]))
  }

  ghost function Minors(m: Model, i: nat, keys: seq<int>): (dest: seq<nat>)
    requires m.Valid()
    ensures |dest| == |keys| && forall k | 0 <= k < |keys| :: dest[k] == m.Minor(i, keys[k])
  {
    seq(|keys|, k requires 0 <= k < |keys| => m.Minor(i, keys[k]))
  }

  /** The first round: the keys go to major buckets. */
  ghost function FirstFill(m: Model, cap: nat, keys: seq<int>): (f: Fill)
    requires m.Valid()
    ensures |f.kept| == m.fanout
  {
    AddAll(Fill(NoKeys(m.fanout), []), keys, Buckets(m, keys), cap)
  }

  /** The second round for major bucket `i`: its keys go to minor buckets. */
  ghost function MinorFill(m: Model, i: nat, spill: seq<int>, keys: seq<int>): (f: Fill)
    requires m.Valid()
    ensures |f.kept| == m.minors
  {
    AddAll(Fill(NoKeys(m.minors), spill), keys, Minors(m, i, keys), m.threshold)
  }

  /** The spill bucket after the second round for the first `i` major buckets. */
  ghost function SpillAfter(m: Model, kept: seq<seq<int>>, i: nat, spill: seq<int>): seq<int>
    requires m.Valid() && i <= |kept|
  {
    if i == 0 then spill else MinorFill(m, i - 1, SpillAfter(m, kept, i - 1, spill), kept[i - 1]).spill
  }

  /** All keys that end up in the spill bucket, in the order in which they get there. */
  ghost function Spilled(m: Model, cap: nat, keys: seq<int>): seq<int>
    requires m.Valid()
  {
    var f := FirstFill(m, cap, keys);
    SpillAfter(m, f.kept, m.fanout, f.spill)
  }

  lemma FirstFillMore(m: Model, cap: nat, keys: seq<int>, key: int)
    requires m.Valid()
    ensures FirstFill(m, cap, keys + [key]) == AddTo(FirstFill(m, cap, keys), key, m.Bucket(key), cap)
  {
    AddOneMore(Fill(NoKeys(m.fanout), []), keys, Buckets(m, keys), cap, key, m.Bucket(key));
    assert Buckets(m, keys + [key]) == Buckets(m, keys) + [m.Bucket(key)];
  }

  lemma FirstFillConserves(m: Model, cap: nat, keys: seq<int>)
    requires m.Valid()
    ensures Bag(FirstFill(m, cap, keys).kept, 0) + multiset(FirstFill(m, cap, keys).spill) == multiset(keys)
  {
    FillConserves(Fill(NoKeys(m.fanout), []), keys, Buckets(m, keys), cap);
    BagEmpty(NoKeys(m.fanout), 0);
  }

  lemma MinorFillMore(m: Model, i: nat, spill: seq<int>, keys: seq<int>, key: int)
    requires m.Valid()
    ensures MinorFill(m, i, spill, keys + [key]) ==
            AddTo(MinorFill(m, i, spill, keys), key, m.Minor(i, key), m.threshold)
  {
    AddOneMore(Fill(NoKeys(m.minors), spill), keys, Minors(m, i, keys), m.threshold, key, m.Minor(i, key));
    assert Minors(m, i, keys + [key]) == Minors(m, i, keys) + [m.Minor(i, key)];
  }

  /** What goes to the minor buckets or spills is conserved, and no more is in the buckets than there was. */
  lemma MinorFillConserves(m: Model, i: nat, spill: seq<int>, keys: seq<int>)
    requires m.Valid()
    ensures
      var f := MinorFill(m, i, spill, keys);
      Bag(f.kept, 0) + multiset(f.spill) == multiset(spill) + multiset(keys) && |Bag(f.kept, 0)| <= |keys|
  {
    var start, dest := Fill(NoKeys(m.minors), spill), Minors(m, i, keys);
    FillConserves(start, keys, dest, m.threshold);
    SpillGrows(start, keys, dest, m.threshold);
    BagEmpty(NoKeys(m.minors), 0);
    SizesAdd(Bag(MinorFill(m, i, spill, keys).kept, 0), MinorFill(m, i, spill, keys).spill, spill, keys);
  }

  lemma SizesAdd(bag: multiset<int>, spill: seq<int>, spill0: seq<int>, keys: seq<int>)
    requires bag + multiset(spill) == multiset(spill0) + multiset(keys) && |spill0| <= |spill|
    ensures |bag| <= |keys|
  {
    assert |bag + multiset(spill)| == |bag| + |spill|;
    assert |multiset(spill0) + multiset(keys)| == |spill0| + |keys|;
  }

  // ---------------------------------------------------------------- first round of shuffling

  /** Without repeated keys: every key goes to the major bucket predicted for it. */
  method Shuffle(a: array<int>, m: Model, cap: nat, major: array<int>)
    returns (sizes: seq<nat>, spill: seq<int>, ghost kept: seq<seq<int>>)
    requires m.Valid() && a != major && Times(m.fanout, cap) <= major.Length
    modifies major
    ensures |sizes| == m.fanout && Shelf(major[..], cap, sizes, 0, kept)
    ensures Fill(kept, spill) == FirstFill(m, cap, a[..])
  {
    sizes, spill, kept := seq(m.fanout, _ => 0), [], NoKeys(m.fanout);
    EmptyShelf(major[..], cap, sizes);
    for k := 0 to a.Length
      invariant |sizes| == m.fanout && Shelf(major[..], cap, sizes, 0, kept)
      invariant Fill(kept, spill) == FirstFill(m, cap, a[..k])
    {
      assert a[..k + 1] == a[..k] + [a[k]];
      FirstFillMore(m, cap, a[..k], a[k]);
      sizes, spill, kept := Place(major, sizes, cap, m.Bucket(a[k]), a[k], spill, kept);
    }
    assert a[..] == a[..a.Length];
  }

  // ---------------------------------------------------------------- second round of shuffling

  /** The minor buckets predicted for a batch of keys. */
  method PredictMinors(major: array<int>, offset: nat, n: nat, m: Model, i: nat) returns (cache: seq<nat>)
    requires m.Valid() && offset + n <= major.Length
    ensures |cache| == n && forall j | 0 <= j < n :: cache[j] == m.Minor(i, major[offset + j])
  {
    cache := seq(n, _ => 0);
    for e := 0 to n
      invariant |cache| == n && forall j | 0 <= j < e :: cache[j] == m.Minor(i, major[offset + j])
    {
      cache := cache[e := m.Minor(i, major[offset + e])];
    }
  }

  /** The minor buckets hold what the keys read so far put there. */
  ghost predicate Parted(s: seq<int>, m: Model, i: nat, sizes: seq<nat>, kept: seq<seq<int>>, spill: seq<int>,
                         spill0: seq<int>, keys: seq<int>)
    requires m.Valid()
  {
    && |sizes| == m.minors && Shelf(s, m.threshold, sizes, 0, kept)
    && Fill(kept, spill) == MinorFill(m, i, spill0, keys)
  }

  /** One batch of a major bucket: predict all its keys, then place them. */
  method PlaceBatch(major: array<int>, start: nat, offset: nat, n: nat, m: Model, i: nat, minor: array<int>,
                    sizes0: seq<nat>, spill1: seq<int>, ghost kept0: seq<seq<int>>, ghost spill0: seq<int>)
    returns (sizes: seq<nat>, spill: seq<int>, ghost kept: seq<seq<int>>)
    requires m.Valid() && major != minor && start <= offset && offset + n <= major.Length
    requires Parted(minor[..], m, i, sizes0, kept0, spill1, spill0, major[start..offset])
    modifies minor
    ensures Parted(minor[..], m, i, sizes, kept, spill, spill0, major[start..offset + n])
  {
    var cache := PredictMinors(major, offset, n, m, i);
    sizes, spill, kept := sizes0, spill1, kept0;
    for e := 0 to n
      invariant Parted(minor[..], m, i, sizes, kept, spill, spill0, major[start..offset + e])
    {
      var key := major[offset + e];
      assert major[start..offset + e + 1] == major[start..offset + e] + [key];
      MinorFillMore(m, i, spill0, major[start..offset + e], key);
      sizes, spill, kept := Place(minor, sizes, m.threshold, cache[e], key, spill, kept);
    }
  }

  /** The `size` keys of major bucket `i` go to minor buckets, batch by batch and then what is left over. */
  method SplitMajor(major: array<int>, start: nat, size: nat, m: Model, i: nat, minor: array<int>, spill0: seq<int>)
    returns (sizes: seq<nat>, spill: seq<int>, ghost kept: seq<seq<int>>)
    requires m.Valid() && major != minor && start + size <= major.Length && Times(m.minors, m.threshold) <= minor.Length
    modifies minor
    ensures Parted(minor[..], m, i, sizes, kept, spill, spill0, major[start..start + size])
  {
    sizes, kept, spill := seq(m.minors, _ => 0), NoKeys(m.minors), spill0;
    EmptyShelf(minor[..], m.threshold, sizes);
    assert major[start..start] == [];
    var offset: nat;
    offset, sizes, spill, kept := SplitBatches(major, start, size, m, i, minor, sizes, spill, kept);
    sizes, spill, kept :=
      PlaceBatch(major, start, offset, start + size - offset, m, i, minor, sizes, spill, kept, spill0);
  }

  method SplitBatches(major: array<int>, start: nat, size: nat, m: Model, i: nat, minor: array<int>,
                      sizes0: seq<nat>, spill0: seq<int>, ghost kept0: seq<seq<int>>)
    returns (offset: nat, sizes: seq<nat>, spill: seq<int>, ghost kept: seq<seq<int>>)
    requires m.Valid() && major != minor && start + size <= major.Length
    requires Parted(minor[..], m, i, sizes0, kept0, spill0, spill0, major[start..start])
    modifies minor
    ensures start <= offset <= start + size
    ensures Parted(minor[..], m, i, sizes, kept, spill, spill0, major[start..offset])
  {
    offset, sizes, spill, kept := start, sizes0, spill0, kept0;
    var batches := size / m.batch;
    BatchesFit(size, m.batch);
    ghost var left := Times(batches, m.batch);
    for k := 0 to batches
      invariant start <= offset && offset + left <= start + size && left == Times(batches - k, m.batch)
      invariant Parted(minor[..], m, i, sizes, kept, spill, spill0, major[start..offset])
    {
      sizes, spill, kept := PlaceBatch(major, start, offset, m.batch, m, i, minor, sizes, spill, kept, spill0);
      offset, left := offset + m.batch, left - m.batch;
    }
  }

  lemma SliceJoin(s: seq<int>, from: nat, mid: nat, to: nat)
    requires from <= mid <= to <= |s|
    ensures multiset(s[from..to]) == multiset(s[from..mid]) + multiset(s[mid..to])
  {
    assert s[from..to] == s[from..mid] + s[mid..to];
  }

  lemma BatchesFit(size: nat, batch: nat)
    requires batch > 0
    ensures Times(size / batch, batch) <= size
  {
    TimesIsProduct(size / batch, batch);
  }

  // ---------------------------------------------------------------- insertion touch-up

  /** One round of the insertion sort: the element at `k` moves back into the ascending range before it. */
  method InsertOne(major: array<int>, k: nat)
    requires k < major.Length && Ascending(major[..k])
    modifies major
    ensures Ascending(major[..k + 1]) && multiset(major[..k + 1]) == old(multiset(major[..k + 1]))
    ensures forall j | k < j < major.Length :: major[j] == old(major[j])
  {
    ghost var s := major[..];
    var p := ShiftBack(major, k);
    InsertedOne(s, major[..], k, p);
  }

  method ShiftBack(major: array<int>, k: nat) returns (ghost p: nat)
    requires k < major.Length
    modifies major
    ensures p <= k && forall j | 0 <= j < p || k < j < major.Length :: major[j] == old(major[j])
    ensures major[p] == old(major[k]) && forall j {:trigger major[j]} | p < j <= k :: major[j] == old(major[j - 1])
    ensures p > 0 ==> old(major[p - 1]) <= old(major[k])
    ensures forall j | p <= j < k :: old(major[k]) < old(major[j])
  {
    var elm := major[k];
    var cmp := k - 1;
    while cmp >= 0 && elm < major[cmp]
      invariant -1 <= cmp < k
      invariant forall j | 0 <= j <= cmp + 1 || k < j < major.Length :: major[j] == old(major[j])
      invariant forall j {:trigger major[j]} | cmp + 1 < j <= k :: major[j] == old(major[j - 1])
      invariant forall j | cmp < j < k :: elm < old(major[j])
    {
      major[cmp + 1] := major[cmp];
      cmp := cmp - 1;
    }
    major[cmp + 1] := elm;
    p := cmp + 1;
  }

  lemma InsertedOne(s: seq<int>, r: seq<int>, k: nat, p: nat)
    requires p <= k < |s| == |r| && Ascending(s[..k])
    requires forall j | 0 <= j < p :: r[j] == s[j]
    requires r[p] == s[k] && forall j {:trigger r[j]} | p < j <= k :: r[j] == s[j - 1]
    requires p > 0 ==> s[p - 1] <= s[k]
    requires forall j | p <= j < k :: s[k] < s[j]
    ensures Ascending(r[..k + 1]) && multiset(r[..k + 1]) == multiset(s[..k + 1])
  {
    forall i, j | 0 <= i < j < k
      ensures s[i] <= s[j]
    {
      assert s[..k][i] <= s[..k][j];
    }
    InsertedPermutes(s, r, k, p);
  }

  lemma InsertedPermutes(s: seq<int>, r: seq<int>, k: nat, p: nat)
    requires p <= k < |s| == |r|
    requires forall j | 0 <= j < p :: r[j] == s[j]
    requires r[p] == s[k] && forall j {:trigger r[j]} | p < j <= k :: r[j] == s[j - 1]
    ensures multiset(r[..k + 1]) == multiset(s[..k + 1])
  {
    assert r[..k + 1] == s[..p] + [s[k]] + s[p..k];
    assert s[..k + 1] == s[..p] + s[p..k] + [s[k]];
  }

  /** The insertion sort after the counting sort; it runs back to the front of the array if it must. */
  method TouchUp(major: array<int>, tot: nat, size: nat)
    requires tot + size <= major.Length && Ascending(major[..tot])
    modifies major
    ensures Ascending(major[..tot + size]) && multiset(major[..tot + size]) == old(multiset(major[..tot + size]))
    ensures forall j | tot + size <= j < major.Length :: major[j] == old(major[j])
  {
    ghost var s := major[..];
    for e := 0 to size
      invariant Ascending(major[..tot + e])
      invariant multiset(major[..tot + e]) == multiset(s[..tot + e])
      invariant forall j | tot + e <= j < major.Length :: major[j] == s[j]
    {
      SameNext(major[..], s, tot + e);
      InsertOne(major, tot + e);
    }
  }

  lemma SameNext(r: seq<int>, s: seq<int>, k: nat)
    requires k < |r| == |s| && r[k] == s[k] && multiset(r[..k]) == multiset(s[..k])
    ensures multiset(r[..k + 1]) == multiset(s[..k + 1])
  {
    assert r[..k + 1] == r[..k] + [r[k]] && s[..k + 1] == s[..k] + [s[k]];
  }

  // ---------------------------------------------------------------- counting sort and compaction

  /** The predicted place of every key of a minor bucket. If its first and last key use the same leaf model, that
      model is used for all of them. */
  method Predict(minor: array<int>, at: nat, size: nat, m: Model, i: nat, j: nat) returns (preds: seq<nat>)
    requires m.Valid() && 0 < size && at + size <= minor.Length
    ensures |preds| == size && forall k | 0 <= k < size :: preds[k] < m.threshold
  {
    var first, last := m.leaf(minor[at]), m.leaf(minor[at + size - 1]);
    preds := [];
    if first == last {
      for e := 0 to size
        invariant |preds| == e && forall k | 0 <= k < e :: preds[k] < m.threshold
      {
        preds := preds + [m.Rank(i, j, first, minor[at + e])];
      }
    } else {
      for e := 0 to size
        invariant |preds| == e && forall k | 0 <= k < e :: preds[k] < m.threshold
      {
        preds := preds + [m.Rank(i, j, m.leaf(minor[at + e]), minor[at + e])];
      }
    }
  }

  /** One minor bucket is appended to the ascending front of the array and sorted into it. */
  method SortBucket(minor: array<int>, at: nat, size: nat, m: Model, i: nat, j: nat, major: array<int>, tot: nat,
                    ghost front: multiset<int>)
    requires m.Valid() && major != minor && 0 < size <= m.threshold && at + size <= minor.Length
    requires tot + size <= major.Length && Front(major[..], tot, front)
    modifies major
    ensures Front(major[..], tot + size, front + multiset(minor[at..at + size]))
    ensures Beyond(old(major[..]), major[..], tot + size)
  {
    LookAtFront(major[..], tot, front);
    WriteBucket(minor, at, size, m, i, j, major, tot);
    TouchUp(major, tot, size);
  }

  /** The counting sort of one minor bucket onto the places after the front. */
  method WriteBucket(minor: array<int>, at: nat, size: nat, m: Model, i: nat, j: nat, major: array<int>, tot: nat)
    requires m.Valid() && major != minor && 0 < size <= m.threshold && at + size <= minor.Length
    requires tot + size <= major.Length
    modifies major
    ensures major[..tot] == old(major[..tot])
    ensures multiset(major[..tot + size]) == old(multiset(major[..tot])) + multiset(minor[at..at + size])
    ensures Beyond(old(major[..]), major[..], tot + size)
  {
    var preds := Predict(minor, at, size, m, i, j);
    var cnt := Histogram(preds, m.threshold);
    cnt := RunningTotals(preds, cnt);
    Scatter(minor, at, preds, cnt, major, tot);
    SliceJoin(major[..], 0, tot, tot + size);
  }

  /** All minor buckets of one major bucket are written back; nothing beyond them is touched. */
  method Compact(minor: array<int>, sizes: seq<nat>, m: Model, i: nat, major: array<int>, tot0: nat,
                 ghost front0: multiset<int>, ghost kept: seq<seq<int>>)
    returns (tot: nat)
    requires m.Valid() && major != minor && |sizes| == m.minors && Shelf(minor[..], m.threshold, sizes, 0, kept)
    requires tot0 + Total(sizes, 0) <= major.Length && Front(major[..], tot0, front0)
    modifies major
    ensures tot == tot0 + Total(sizes, 0) && Front(major[..], tot, front0 + Bag(kept, 0))
    ensures Beyond(old(major[..]), major[..], tot)
  {
    ghost var front, s := front0, minor[..];
    tot := tot0;
    for j := 0 to m.minors
      invariant tot + Total(sizes, j) == tot0 + Total(sizes, 0) && Front(major[..], tot, front)
      invariant minor[..] == s && Shelf(s, m.threshold, sizes, j, kept) && front + Bag(kept, j) == front0 + Bag(kept, 0)
      invariant Beyond(old(major[..]), major[..], tot)
    {
      FirstBucket(s, m.threshold, sizes, j, kept);
      tot := CompactOne(minor, sizes[j], m, i, j, major, tot, front, kept[j]);
      Regroup(front, multiset(kept[j]), Bag(kept, j + 1), Bag(kept, j));
      front := front + multiset(kept[j]);
    }
    assert front == front0 + Bag(kept, 0);
  }

  method CompactOne(minor: array<int>, size: nat, m: Model, i: nat, j: nat, major: array<int>, tot0: nat,
                    ghost front: multiset<int>, ghost keys: seq<int>)
    returns (tot: nat)
    requires m.Valid() && major != minor && size == |keys| <= m.threshold && Holds(minor[..], m.threshold, j, keys)
    requires tot0 + size <= major.Length && Front(major[..], tot0, front)
    modifies major
    ensures tot == tot0 + size && Front(major[..], tot, front + multiset(keys))
    ensures Beyond(old(major[..]), major[..], tot)
  {
    var at := BucketStart(j, m.threshold);
    AppendBucket(minor, at, size, m, i, j, major, tot0, front, keys);
    tot := tot0 + size;
  }

  lemma Regroup(front: multiset<int>, piece: multiset<int>, rest: multiset<int>, rest0: multiset<int>)
    requires rest0 == piece + rest
    ensures (front + piece) + rest == front + rest0
  {
  }

  method AppendBucket(minor: array<int>, at: nat, size: nat, m: Model, i: nat, j: nat, major: array<int>, tot: nat,
                      ghost front: multiset<int>, ghost keys: seq<int>)
    requires m.Valid() && major != minor && size <= m.threshold && at + size <= minor.Length
    requires tot + size <= major.Length && Front(major[..], tot, front) && keys == minor[at..at + size]
    modifies major
    ensures Front(major[..], tot + size, front + multiset(keys))
    ensures Beyond(old(major[..]), major[..], tot + size)
  {
    if size > 0 {
      SortBucket(minor, at, size, m, i, j, major, tot, front);
    }
  }

  /** The second round: each major bucket is split, sorted and written back over the front of the same array. */
  method SecondRound(major: array<int>, sizes: seq<nat>, m: Model, cap: nat, minor: array<int>, spill0: seq<int>,
                     ghost kept: seq<seq<int>>)
    returns (tot: nat, spill: seq<int>, ghost front: multiset<int>)
    requires m.Valid() && major != minor && |sizes| == m.fanout && Times(m.minors, m.threshold) <= minor.Length
    requires Shelf(major[..], cap, sizes, 0, kept)
    modifies major, minor
    ensures Front(major[..], tot, front) && front + multiset(spill) == Bag(kept, 0) + multiset(spill0)
    ensures spill == SpillAfter(m, kept, m.fanout, spill0)
  {
    tot, spill, front := 0, spill0, multiset{};
    for i := 0 to m.fanout
      invariant tot <= Times(i, cap) && Front(major[..], tot, front) && Shelf(major[..], cap, sizes, i, kept)
      invariant front + multiset(spill) + Bag(kept, i) == Bag(kept, 0) + multiset(spill0)
      invariant spill == SpillAfter(m, kept, i, spill0)
    {
      tot, spill, front := OneMajor(major, sizes, m, cap, minor, spill, i, tot, front, kept);
    }
  }

  /** Major bucket `i`: every write lies below its end, so the major buckets after it are still unread and whole, and
      what is placed, spilled and unread is conserved. */
  method OneMajor(major: array<int>, sizes: seq<nat>, m: Model, cap: nat, minor: array<int>, spill0: seq<int>,
                  i: nat, tot0: nat, ghost front0: multiset<int>, ghost kept: seq<seq<int>>)
    returns (tot: nat, spill: seq<int>, ghost front: multiset<int>)
    requires m.Valid() && major != minor && |sizes| == m.fanout && Times(m.minors, m.threshold) <= minor.Length
    requires i < m.fanout && tot0 <= Times(i, cap) && Front(major[..], tot0, front0)
    requires Shelf(major[..], cap, sizes, i, kept)
    modifies major, minor
    ensures tot <= Times(i + 1, cap) && Front(major[..], tot, front) && Shelf(major[..], cap, sizes, i + 1, kept)
    ensures front + multiset(spill) + Bag(kept, i + 1) == front0 + multiset(spill0) + Bag(kept, i)
    ensures spill == MinorFill(m, i, spill0, kept[i]).spill
    ensures Beyond(old(major[..]), major[..], Times(i + 1, cap))
  {
    FirstBucket(major[..], cap, sizes, i, kept);
    var start := BucketStart(i, cap);
    var minorSizes: seq<nat>;
    ghost var parts;
    minorSizes, spill, parts := SplitMajor(major, start, sizes[i], m, i, minor, spill0);
    MinorFillConserves(m, i, spill0, kept[i]);
    NoMoreThan(minor[..], m.threshold, minorSizes, parts);
    tot := WriteBack(minor, minorSizes, m, i, major, tot0, sizes, cap, front0, parts, kept);
    front := front0 + Bag(parts, 0);
    Conserve(front0, Bag(parts, 0), multiset(spill), multiset(spill0), multiset(kept[i]),
             Bag(kept, i + 1), Bag(kept, i));
  }

  lemma Conserve(front: multiset<int>, held: multiset<int>, spill: multiset<int>, spill0: multiset<int>,
                 piece: multiset<int>, rest: multiset<int>, rest0: multiset<int>)
    requires held + spill == spill0 + piece && rest0 == piece + rest
    ensures front + held + spill + rest == front + spill0 + rest0
  {
    assert front + held + spill + rest == front + (held + spill) + rest;
  }

  /** The sizes of the minor buckets add up to what they keep. */
  lemma NoMoreThan(s: seq<int>, cap: nat, sizes: seq<nat>, kept: seq<seq<int>>)
    requires Shelf(s, cap, sizes, 0, kept)
    ensures Total(sizes, 0) == |Bag(kept, 0)|
  {
    assert Looked(0);
    TotalKept(sizes, kept, 0);
  }

  /** The minor buckets are written over the front of the array, below the major buckets not yet read. */
  method WriteBack(minor: array<int>, minorSizes: seq<nat>, m: Model, i: nat, major: array<int>, tot0: nat,
                   ghost sizes: seq<nat>, ghost cap: nat,
                   ghost front0: multiset<int>, ghost parts: seq<seq<int>>, ghost kept: seq<seq<int>>)
    returns (tot: nat)
    requires m.Valid() && major != minor && |minorSizes| == m.minors
    requires Shelf(minor[..], m.threshold, minorSizes, 0, parts) && Shelf(major[..], cap, sizes, i + 1, kept)
    requires tot0 + Total(minorSizes, 0) <= Times(i + 1, cap) <= major.Length && Front(major[..], tot0, front0)
    modifies major
    ensures tot <= Times(i + 1, cap) && Front(major[..], tot, front0 + Bag(parts, 0))
    ensures Shelf(major[..], cap, sizes, i + 1, kept)
    ensures Beyond(old(major[..]), major[..], Times(i + 1, cap))
  {
    ghost var s := major[..];
    tot := Compact(minor, minorSizes, m, i, major, tot0, front0, parts);
    StillWhole(s, major[..], sizes, cap, i + 1, tot, kept);
  }
}
