/** Buckets of equal capacity side by side in one array, with a spill bucket for the keys whose bucket is full. */
module Shelves {
  import opened Gates
  import opened SortSpec

  /** The length of `k` buckets of capacity `n`, as a sum. */
  ghost function Times(k: nat, n: nat): nat {
    if k == 0 then 0 else n + Times(k - 1, n)
  }

  lemma {:induction false} TimesIsProduct(k: nat, n: nat)
    ensures Times(k, n) == k * n
  {
    if k > 0 {
      TimesIsProduct(k - 1, n);
    }
  }

  lemma {:induction false} TimesMonotone(j: nat, k: nat, n: nat)
    requires j <= k
    ensures Times(j, n) <= Times(k, n)
    decreases k - j
  {
    if j < k {
      TimesMonotone(j, k - 1, n);
    }
  }

  // ---------------------------------------------------------------- filling buckets

  /** What the buckets keep and what spills, both in the order of arrival. */
  datatype Fill = Fill(kept: seq<seq<int>>, spill: seq<int>)

  /** A key goes to its bucket, or to the spill bucket if that is full. */
  ghost function AddTo(f: Fill, key: int, b: nat, cap: nat): (r: Fill)
    requires b < |f.kept|
    ensures |r.kept| == |f.kept|
  {
    if |f.kept[b]| < cap then f.(kept := f.kept[b := f.kept[b] + [key]]) else f.(spill := f.spill + [key])
  }

  /** The keys of a sequence go to the buckets `dest`, one after the other. */
  ghost function AddAll(f: Fill, keys: seq<int>, dest: seq<nat>, cap: nat): (r: Fill)
    requires |keys| == |dest| && forall i | 0 <= i < |dest| :: dest[i] < |f.kept|
    ensures |r.kept| == |f.kept|
  {
    if keys == [] then f
    else AddTo(AddAll(f, keys[..|keys| - 1], dest[..|keys| - 1], cap), keys[|keys| - 1], dest[|keys| - 1], cap)
  }

  /** The keys that go to bucket `b`, in the order of arrival. */
  ghost function Coming(keys: seq<int>, dest: seq<nat>, b: nat): seq<int>
    requires |keys| == |dest|
  {
    if keys == [] then []
    else Coming(keys[..|keys| - 1], dest[..|keys| - 1], b) +
         if dest[|keys| - 1] == b then [keys[|keys| - 1]] else []
  }

  /** A bucket keeps the first keys that come, as many as it has room for. */
  lemma {:induction false} KeepsFirst(keys: seq<int>, dest: seq<nat>, cap: nat, n: nat, b: nat)
    requires |keys| == |dest| && b < n && forall i | 0 <= i < |dest| :: dest[i] < n
    ensures
      var kept, coming := AddAll(Fill(NoKeys(n), []), keys, dest, cap).kept[b], Coming(keys, dest, b);
      |kept| == (if |coming| < cap then |coming| else cap) && kept == coming[..|kept|]
  {
    if keys != [] {
      KeepsFirst(keys[..|keys| - 1], dest[..|keys| - 1], cap, n, b);
    }
  }

  function NoKeys(n: nat): (kept: seq<seq<int>>)
    ensures |kept| == n && forall k | 0 <= k < n :: kept[k] == []
  {
    seq(n, _ => [])
  }

  /** What the buckets from bucket `j` on keep. */
  ghost function Bag(kept: seq<seq<int>>, j: nat): multiset<int>
    requires j <= |kept|
    decreases |kept| - j
  {
    if j == |kept| then multiset{} else multiset(kept[j]) + Bag(kept, j + 1)
  }

  lemma {:induction false} BagEmpty(kept: seq<seq<int>>, j: nat)
    requires j <= |kept| && forall k | 0 <= k < |kept| :: kept[k] == []
    ensures Bag(kept, j) == multiset{}
    decreases |kept| - j
  {
    if j < |kept| {
      BagEmpty(kept, j + 1);
    }
  }

  lemma {:induction false} BagFrame(kept: seq<seq<int>>, more: seq<seq<int>>, j: nat)
    requires j <= |kept| == |more| && forall k | j <= k < |kept| :: more[k] == kept[k]
    ensures Bag(more, j) == Bag(kept, j)
    decreases |kept| - j
  {
    if j < |kept| {
      BagFrame(kept, more, j + 1);
    }
  }

  lemma {:induction false} BagMore(kept: seq<seq<int>>, b: nat, key: int, j: nat)
    requires j <= b < |kept|
    ensures Bag(kept[b := kept[b] + [key]], j) == Bag(kept, j) + multiset{key}
    decreases |kept| - j
  {
    var more := kept[b := kept[b] + [key]];
    if j < b {
      BagMore(kept, b, key, j + 1);
    } else {
      BagFrame(kept, more, j + 1);
    }
  }

  /** Nothing is lost: every key is kept or spilled. */
  lemma {:induction false} FillConserves(f: Fill, keys: seq<int>, dest: seq<nat>, cap: nat)
    requires |keys| == |dest| && forall i | 0 <= i < |dest| :: dest[i] < |f.kept|
    ensures
      var r := AddAll(f, keys, dest, cap);
      Bag(r.kept, 0) + multiset(r.spill) == Bag(f.kept, 0) + multiset(f.spill) + multiset(keys)
  {
    if keys != [] {
      var n := |keys| - 1;
      FillConserves(f, keys[..n], dest[..n], cap);
      AddConserves(AddAll(f, keys[..n], dest[..n], cap), keys[n], dest[n], cap);
      assert keys == keys[..n] + [keys[n]];
    }
  }

  lemma AddConserves(f: Fill, key: int, b: nat, cap: nat)
    requires b < |f.kept|
    ensures
      var r := AddTo(f, key, b, cap);
      Bag(r.kept, 0) + multiset(r.spill) == Bag(f.kept, 0) + multiset(f.spill) + multiset{key}
  {
    BagMore(f.kept, b, key, 0);
  }

  lemma AddOneMore(f: Fill, keys: seq<int>, dest: seq<nat>, cap: nat, key: int, b: nat)
    requires |keys| == |dest| && (forall i | 0 <= i < |dest| :: dest[i] < |f.kept|) && b < |f.kept|
    ensures AddAll(f, keys + [key], dest + [b], cap) == AddTo(AddAll(f, keys, dest, cap), key, b, cap)
  {
    assert (keys + [key])[..|keys|] == keys && (dest + [b])[..|keys|] == dest;
  }

  /** The spill bucket only grows. */
  lemma {:induction false} SpillGrows(f: Fill, keys: seq<int>, dest: seq<nat>, cap: nat)
    requires |keys| == |dest| && forall i | 0 <= i < |dest| :: dest[i] < |f.kept|
    ensures
      var r := AddAll(f, keys, dest, cap);
      |f.spill| <= |r.spill| && r.spill[..|f.spill|] == f.spill
  {
    if keys != [] {
      var n := |keys| - 1;
      SpillGrows(f, keys[..n], dest[..n], cap);
    }
  }

  // ---------------------------------------------------------------- buckets in an array

  /** Bucket `k` of capacity `cap` holds `keys`. */
  ghost predicate Holds(s: seq<int>, cap: nat, k: nat, keys: seq<int>) {
    |keys| <= cap && Times(k, cap) + cap <= |s| && s[Times(k, cap)..Times(k, cap) + |keys|] == keys
  }

  /** The buckets from bucket `j` on hold what they should. The code that moves keys about only passes this on; what it
      means is available wherever an index is named as Looked. */
  ghost predicate Shelf(s: seq<int>, cap: nat, sizes: seq<nat>, j: nat, kept: seq<seq<int>>) {
    && j <= |sizes| == |kept|
    && forall u {:trigger Looked(u)} | Looked(u) ::
         forall k | j <= k < |kept| :: sizes[k] == |kept[k]| && Holds(s, cap, k, kept[k])
  }

  lemma LookAt(s: seq<int>, cap: nat, sizes: seq<nat>, j: nat, kept: seq<seq<int>>, k: nat)
    requires Shelf(s, cap, sizes, j, kept) && j <= k < |kept|
    ensures sizes[k] == |kept[k]| && Holds(s, cap, k, kept[k])
  {
    assert Looked(0);
  }

  lemma EmptyShelf(s: seq<int>, cap: nat, sizes: seq<nat>)
    requires Times(|sizes|, cap) <= |s| && forall k | 0 <= k < |sizes| :: sizes[k] == 0
    ensures Shelf(s, cap, sizes, 0, NoKeys(|sizes|))
  {
    forall k | 0 <= k < |sizes|
      ensures Holds(s, cap, k, NoKeys(|sizes|)[k])
    {
      TimesMonotone(k + 1, |sizes|, cap);
    }
  }

  /** From position `x` on, `r` is `s`. */
  ghost predicate Beyond(s: seq<int>, r: seq<int>, x: nat) {
    |s| == |r| && forall u {:trigger Looked(u)} | Looked(u) :: forall j | x <= j < |s| :: r[j] == s[j]
  }

  /** Buckets from `i` on do not change when nothing from position `x` on does, which is not beyond their start. */
  lemma StillWhole(s: seq<int>, r: seq<int>, sizes: seq<nat>, cap: nat, i: nat, x: nat, kept: seq<seq<int>>)
    requires Shelf(s, cap, sizes, i, kept) && x <= Times(i, cap) && Beyond(s, r, x)
    ensures Shelf(r, cap, sizes, i, kept)
  {
    assert Looked(0);
    forall k | i <= k < |kept|
      ensures Holds(r, cap, k, kept[k])
    {
      TimesMonotone(i, k, cap);
      assert Holds(s, cap, k, kept[k]);
    }
  }

  /** A key put after those of bucket `b` leaves the other buckets alone. */
  lemma PutInBucket(s: seq<int>, cap: nat, b: nat, keys: seq<int>, key: int, k: nat, others: seq<int>)
    requires Holds(s, cap, b, keys) && |keys| < cap && Holds(s, cap, k, others)
    ensures
      var r := s[Times(b, cap) + |keys| := key];
      if k == b then Holds(r, cap, b, keys + [key]) else Holds(r, cap, k, others)
  {
    BucketsApart(b, k, cap);
  }

  lemma BucketsApart(b: nat, k: nat, cap: nat)
    ensures k < b ==> Times(k, cap) + cap <= Times(b, cap)
    ensures b < k ==> Times(b, cap) + cap <= Times(k, cap)
  {
    if k < b {
      TimesMonotone(k + 1, b, cap);
    } else if b < k {
      TimesMonotone(b + 1, k, cap);
    }
  }

  lemma PutInShelf(s: seq<int>, cap: nat, sizes: seq<nat>, kept: seq<seq<int>>, b: nat, key: int)
    requires Shelf(s, cap, sizes, 0, kept) && b < |kept| && sizes[b] < cap
    ensures Times(b, cap) + sizes[b] < |s|
    ensures Shelf(s[Times(b, cap) + sizes[b] := key], cap, sizes[b := sizes[b] + 1], 0, kept[b := kept[b] + [key]])
  {
    assert Looked(0);
    assert Holds(s, cap, b, kept[b]);
    var r, more := s[Times(b, cap) + sizes[b] := key], kept[b := kept[b] + [key]];
    forall k | 0 <= k < |kept|
      ensures Holds(r, cap, k, more[k])
    {
      assert Holds(s, cap, k, kept[k]);
      PutInBucket(s, cap, b, kept[b], key, k, kept[k]);
    }
  }

  /** Where bucket `k` of capacity `cap` starts. */
  method BucketStart(k: nat, cap: nat) returns (at: nat)
    ensures at == Times(k, cap)
  {
    TimesIsProduct(k, cap);
    at := cap * k;
  }

  /** A key goes to its bucket, or to the spill bucket if that is full. */
  method Place(buf: array<int>, sizes0: seq<nat>, cap: nat, b: nat, key: int, spill0: seq<int>,
               ghost kept0: seq<seq<int>>)
    returns (sizes: seq<nat>, spill: seq<int>, ghost kept: seq<seq<int>>)
    requires Shelf(buf[..], cap, sizes0, 0, kept0) && b < |sizes0|
    modifies buf
    ensures |sizes| == |sizes0| && Shelf(buf[..], cap, sizes, 0, kept)
    ensures Fill(kept, spill) == AddTo(Fill(kept0, spill0), key, b, cap)
  {
    sizes, spill, kept := sizes0, spill0, kept0;
    LookAt(buf[..], cap, sizes, 0, kept, b);
    if sizes[b] < cap {
      PutInShelf(buf[..], cap, sizes, kept, b, key);
      ghost var s := buf[..];
      var at := BucketStart(b, cap);
      buf[at + sizes[b]] := key;
      assert buf[..] == s[at + sizes[b] := key];
      sizes, kept := sizes[b := sizes[b] + 1], kept[b := kept[b] + [key]];
    } else {
      spill := spill + [key];
    }
  }

  /** The sizes of the buckets from bucket `j` on, added up. */
  ghost function Total(sizes: seq<nat>, j: nat): nat
    requires j <= |sizes|
    decreases |sizes| - j
  {
    if j == |sizes| then 0 else sizes[j] + Total(sizes, j + 1)
  }

  lemma {:induction false} TotalKept(sizes: seq<nat>, kept: seq<seq<int>>, j: nat)
    requires j <= |sizes| == |kept| && forall k | j <= k < |kept| :: sizes[k] == |kept[k]|
    ensures |Bag(kept, j)| == Total(sizes, j)
    decreases |sizes| - j
  {
    if j < |sizes| {
      TotalKept(sizes, kept, j + 1);
    }
  }

  /** The first bucket of a shelf. */
  lemma FirstBucket(s: seq<int>, cap: nat, sizes: seq<nat>, j: nat, kept: seq<seq<int>>)
    requires Shelf(s, cap, sizes, j, kept) && j < |sizes|
    ensures sizes[j] == |kept[j]| && Holds(s, cap, j, kept[j])
    ensures Shelf(s, cap, sizes, j + 1, kept) && Bag(kept, j) == multiset(kept[j]) + Bag(kept, j + 1)
  {
    LookAt(s, cap, sizes, j, kept, j);
    assert Looked(0);
  }
}
