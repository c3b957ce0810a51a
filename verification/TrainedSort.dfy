/** The whole sort with a trained model: the repeated keys are counted and the others shuffled, sorted, merged with the
    spill bucket and then with the repeated keys. */
module TrainedSort {
  import opened Gates
  import opened SortSpec
  import opened Shelves
  import opened LearnedSort
  import opened RepeatedKeys

  // ---------------------------------------------------------------- counting instead of shuffling

  const BATCH_SZ_EXP := 100

  /** Bucket by bucket, the repeated keys predicted to it and how often each has been seen. */
  ghost predicate Tallied(m: Model, repeated: seq<int>, ranks: seq<seq<int>>, counts: seq<seq<nat>>,
                          seen: multiset<int>)
    requires m.Valid()
  {
    && |ranks| == |counts| == m.fanout
    && forall b {:trigger Looked(b)} | 0 <= b < m.fanout && Looked(b) ::
         TalliedAt(m, repeated, ranks[b], counts[b], b, seen)
  }

  ghost predicate TalliedAt(m: Model, repeated: seq<int>, vals: seq<int>, cnts: seq<nat>, b: nat, seen: multiset<int>)
    requires m.Valid()
  {
    && vals == Chosen(m, repeated, b) && |vals| == |cnts|
    && forall j | 0 <= j < |vals| :: cnts[j] == seen[vals[j]]
  }

  /** The lists of repeated keys, each key in the list of its bucket with count 0. */
  method ListRepeated(m: Model, repeated: seq<int>) returns (ranks: seq<seq<int>>, counts: seq<seq<nat>>)
    requires m.Valid()
    ensures Tallied(m, repeated, ranks, counts, multiset{})
  {
    ranks, counts := seq(m.fanout, _ => []), seq(m.fanout, _ => []);
    for i := 0 to |repeated|
      invariant Tallied(m, repeated[..i], ranks, counts, multiset{})
    {
      var b := m.Bucket(repeated[i]);
      assert Looked(b) && repeated[..i + 1][..i] == repeated[..i];
      ranks, counts := ranks[b := ranks[b] + [repeated[i]]], counts[b := counts[b] + [0]];
    }
    assert repeated[..|repeated|] == repeated;
  }

  /** The place of `key` in a list of repeated keys, or the length of the list. */
  method FindRepeated(vals: seq<int>, key: int) returns (j: nat)
    ensures j <= |vals| && (j < |vals| ==> vals[j] == key)
    ensures key in vals <==> j < |vals|
  {
    j := 0;
    while j < |vals| && vals[j] != key
      invariant j <= |vals| && key !in vals[..j]
    {
      j := j + 1;
    }
  }

  lemma TallyOne(m: Model, repeated: seq<int>, vals: seq<int>, cnts: seq<nat>, b: nat, seen: multiset<int>, j: nat)
    requires m.Valid() && StrictlyAscending(repeated) && j < |vals|
    requires TalliedAt(m, repeated, vals, cnts, b, seen)
    ensures TalliedAt(m, repeated, vals, cnts[j := cnts[j] + 1], b, seen + multiset{vals[j]})
  {
    ChosenKeys(m, repeated, b);
  }

  lemma TallyOther(m: Model, repeated: seq<int>, vals: seq<int>, cnts: seq<nat>, b: nat, seen: multiset<int>, key: int)
    requires m.Valid() && StrictlyAscending(repeated) && (m.Bucket(key) != b || key !in repeated)
    requires TalliedAt(m, repeated, vals, cnts, b, seen)
    ensures TalliedAt(m, repeated, vals, cnts, b, seen + multiset{key})
  {
    ChosenKeys(m, repeated, b);
    assert forall j | 0 <= j < |vals| :: vals[j] in vals;
  }

  /** One more key has been seen; it is counted if it is a repeated one. */
  method Tally(m: Model, ghost repeated: seq<int>, ranks: seq<seq<int>>, counts0: seq<seq<nat>>, key: int, b: nat,
               ghost seen: multiset<int>)
    returns (found: bool, counts: seq<seq<nat>>)
    requires m.Valid() && StrictlyAscending(repeated) && b == m.Bucket(key)
    requires Tallied(m, repeated, ranks, counts0, seen)
    ensures found <==> key in repeated
    ensures Tallied(m, repeated, ranks, counts, seen + multiset{key})
  {
    counts := counts0;
    assert Looked(b);
    var j := FindRepeated(ranks[b], key);
    found := j < |ranks[b]|;
    ChosenKeys(m, repeated, b);
    if found {
      TallyOne(m, repeated, ranks[b], counts[b], b, seen, j);
      counts := counts[b := counts[b][j := counts[b][j] + 1]];
    }
    forall c | 0 <= c < m.fanout && Looked(c)
      ensures TalliedAt(m, repeated, ranks[c], counts[c], c, seen + multiset{key})
    {
      if !found || c != b {
        TallyOther(m, repeated, ranks[c], counts0[c], c, seen, key);
      }
    }
  }

  /** `kept` is what is left of `seen` without the repeated keys. */
  ghost predicate Unrepeated(kept: multiset<int>, seen: multiset<int>, repeated: seq<int>) {
    forall v {:trigger Looked(v)} | Looked(v) :: kept[v] == if v in repeated then 0 else seen[v]
  }

  /** The keys that are not repeated ones, in order. */
  ghost function Others(keys: seq<int>, repeated: seq<int>): seq<int> {
    if keys == [] then []
    else Others(keys[..|keys| - 1], repeated) + if keys[|keys| - 1] in repeated then [] else [keys[|keys| - 1]]
  }

  lemma {:induction false} OthersAre(keys: seq<int>, repeated: seq<int>)
    ensures Unrepeated(multiset(Others(keys, repeated)), multiset(keys), repeated)
  {
    if keys != [] {
      OthersAre(keys[..|keys| - 1], repeated);
      assert keys == keys[..|keys| - 1] + [keys[|keys| - 1]];
    }
  }

  /** The keys that are not heavily repeated in the sample, in order. */
  ghost function Light(keys: seq<int>, sample: seq<int>): seq<int> {
    if keys == [] then []
    else Light(keys[..|keys| - 1], sample) + if Heavy(sample, keys[|keys| - 1]) then [] else [keys[|keys| - 1]]
  }

  lemma {:induction false} LightAre(keys: seq<int>, sample: seq<int>, repeated: seq<int>)
    requires forall v :: v in repeated <==> Heavy(sample, v)
    ensures Others(keys, repeated) == Light(keys, sample)
  {
    if keys != [] {
      LightAre(keys[..|keys| - 1], sample, repeated);
    }
  }

  lemma {:induction false} AllLight(keys: seq<int>, sample: seq<int>)
    requires forall v :: !Heavy(sample, v)
    ensures Light(keys, sample) == keys
  {
    if keys != [] {
      AllLight(keys[..|keys| - 1], sample);
    }
  }

  lemma OthersMore(keys: seq<int>, key: int, repeated: seq<int>)
    ensures key in repeated ==> Others(keys + [key], repeated) == Others(keys, repeated)
    ensures key !in repeated ==> Others(keys + [key], repeated) == Others(keys, repeated) + [key]
  {
    assert (keys + [key])[..|keys|] == keys;
  }

  lemma {:induction false} AllOthers(keys: seq<int>)
    ensures Others(keys, []) == keys
  {
    if keys != [] {
      AllOthers(keys[..|keys| - 1]);
    }
  }

  /** The predicted bucket of every key in a batch. */
  method PredictBatch(a: array<int>, from: nat, m: Model) returns (buckets: seq<nat>)
    requires m.Valid() && from + BATCH_SZ_EXP <= a.Length
    ensures |buckets| == BATCH_SZ_EXP && forall k | 0 <= k < BATCH_SZ_EXP :: buckets[k] == m.Bucket(a[from + k])
  {
    buckets := seq(BATCH_SZ_EXP, _ => 0);
    for e := 0 to BATCH_SZ_EXP
      invariant |buckets| == BATCH_SZ_EXP && forall k | 0 <= k < e :: buckets[k] == m.Bucket(a[from + k])
    {
      buckets := buckets[e := m.Bucket(a[from + e])];
    }
  }

  /** What the shuffle has done with the keys seen so far: the repeated ones are counted, the others distributed. */
  ghost predicate Shuffled(m: Model, repeated: seq<int>, ranks: seq<seq<int>>, counts: seq<seq<nat>>, total: nat,
                           s: seq<int>, cap: nat, sizes: seq<nat>, spill: seq<int>, kept: seq<seq<int>>,
                           seen: seq<int>)
    requires m.Valid()
  {
    forall u {:trigger Looked(u)} | Looked(u) ::
      && Tallied(m, repeated, ranks, counts, multiset(seen))
      && |sizes| == m.fanout && Shelf(s, cap, sizes, 0, kept)
      && Fill(kept, spill) == FirstFill(m, cap, Others(seen, repeated))
      && total + |Others(seen, repeated)| == |seen|
  }

  /** One key is counted if it is a repeated one, and otherwise placed. */
  method ShuffleOne(m: Model, ghost repeated: seq<int>, ranks: seq<seq<int>>, counts0: seq<seq<nat>>, total0: nat,
                    major: array<int>, cap: nat, sizes0: seq<nat>, spill0: seq<int>, ghost kept0: seq<seq<int>>,
                    ghost seen: seq<int>, key: int, b: nat)
    returns (counts: seq<seq<nat>>, total: nat, sizes: seq<nat>, spill: seq<int>, ghost kept: seq<seq<int>>)
    requires m.Valid() && StrictlyAscending(repeated) && b == m.Bucket(key)
    requires Shuffled(m, repeated, ranks, counts0, total0, major[..], cap, sizes0, spill0, kept0, seen)
    modifies major
    ensures Shuffled(m, repeated, ranks, counts, total, major[..], cap, sizes, spill, kept, seen + [key])
  {
    assert Looked(0);
    var found;
    found, counts := Tally(m, repeated, ranks, counts0, key, b, multiset(seen));
    total, sizes, spill, kept := total0, sizes0, spill0, kept0;
    OthersMore(seen, key, repeated);
    assert multiset(seen + [key]) == multiset(seen) + multiset{key};
    if found {
      total := total + 1;
    } else {
      FirstFillMore(m, cap, Others(seen, repeated), key);
      sizes, spill, kept := Place(major, sizes, cap, b, key, spill, kept);
    }
  }

  /** One batch. */
  method ShuffleBatch(a: array<int>, from: nat, m: Model, ghost repeated: seq<int>, ranks: seq<seq<int>>,
                      counts0: seq<seq<nat>>, total0: nat, major: array<int>, cap: nat, sizes0: seq<nat>,
                      spill0: seq<int>, ghost kept0: seq<seq<int>>)
    returns (counts: seq<seq<nat>>, total: nat, sizes: seq<nat>, spill: seq<int>, ghost kept: seq<seq<int>>)
    requires m.Valid() && a != major && StrictlyAscending(repeated) && from + BATCH_SZ_EXP <= a.Length
    requires Shuffled(m, repeated, ranks, counts0, total0, major[..], cap, sizes0, spill0, kept0, a[..from])
    modifies major
    ensures Shuffled(m, repeated, ranks, counts, total, major[..], cap, sizes, spill, kept, a[..from + BATCH_SZ_EXP])
  {
    var buckets := PredictBatch(a, from, m);
    counts, total, sizes, spill, kept := counts0, total0, sizes0, spill0, kept0;
    for e := 0 to BATCH_SZ_EXP
      invariant Shuffled(m, repeated, ranks, counts, total, major[..], cap, sizes, spill, kept, a[..from + e])
    {
      var key := a[from + e];
      assert a[..from + e + 1] == a[..from + e] + [key];
      counts, total, sizes, spill, kept :=
        ShuffleOne(m, repeated, ranks, counts, total, major, cap, sizes, spill, kept, a[..from + e], key, buckets[e]);
    }
  }

  /** With repeated keys: they are counted, and every other key goes to the major bucket predicted for it. The keys are
      read in whole batches, so that the last one ends beyond the input unless the batches fit. */
  method ShuffleCounting(a: array<int>, m: Model, ghost repeated: seq<int>, ranks: seq<seq<int>>,
                         counts0: seq<seq<nat>>, cap: nat, major: array<int>)
    returns (inside: bool, counts: seq<seq<nat>>, total: nat, sizes: seq<nat>, spill: seq<int>,
             ghost kept: seq<seq<int>>)
    requires m.Valid() && a != major && Times(m.fanout, cap) <= major.Length
    requires StrictlyAscending(repeated) && Tallied(m, repeated, ranks, counts0, multiset{})
    modifies major
    ensures inside <==> a.Length % BATCH_SZ_EXP == 0
    ensures inside ==> Shuffled(m, repeated, ranks, counts, total, major[..], cap, sizes, spill, kept, a[..])
  {
    inside, counts, total, sizes, spill, kept := true, counts0, 0, seq(m.fanout, _ => 0), [], NoKeys(m.fanout);
    EmptyShelf(major[..], cap, sizes);
    var k := 0;
    while k < a.Length
      invariant k <= a.Length && k % BATCH_SZ_EXP == 0
      invariant Shuffled(m, repeated, ranks, counts, total, major[..], cap, sizes, spill, kept, a[..k])
    {
      if k + BATCH_SZ_EXP > a.Length {
        inside := false;
        return;
      }
      counts, total, sizes, spill, kept :=
        ShuffleBatch(a, k, m, repeated, ranks, counts, total, major, cap, sizes, spill, kept);
      k := k + BATCH_SZ_EXP;
    }
    assert a[..k] == a[..];
  }

  // ---------------------------------------------------------------- the whole sort

  /** The repeated keys and their counts, bucket by bucket. */
  method Flatten(m: Model, ghost repeated: seq<int>, ranks: seq<seq<int>>, counts: seq<seq<nat>>,
                 ghost seen: multiset<int>)
    returns (vals: seq<int>, cnts: seq<nat>)
    requires m.Valid() && Tallied(m, repeated, ranks, counts, seen)
    ensures vals == Linear(m, repeated, 0) && |cnts| == |vals|
    ensures forall k | 0 <= k < |vals| :: cnts[k] == seen[vals[k]]
  {
    vals, cnts := [], [];
    for b := 0 to m.fanout
      invariant vals + Linear(m, repeated, b) == Linear(m, repeated, 0) && |cnts| == |vals|
      invariant forall k | 0 <= k < |vals| :: cnts[k] == seen[vals[k]]
    {
      assert Looked(b);
      ghost var before := vals;
      vals, cnts := AppendList(vals, cnts, ranks[b], counts[b], seen);
      Reassociate(before, Chosen(m, repeated, b), Linear(m, repeated, b + 1));
    }
  }

  method AppendList(vals0: seq<int>, cnts0: seq<nat>, ranks: seq<int>, counts: seq<nat>, ghost seen: multiset<int>)
    returns (vals: seq<int>, cnts: seq<nat>)
    requires |vals0| == |cnts0| && |ranks| == |counts|
    requires forall k | 0 <= k < |vals0| :: cnts0[k] == seen[vals0[k]]
    requires forall k | 0 <= k < |ranks| :: counts[k] == seen[ranks[k]]
    ensures vals == vals0 + ranks && |cnts| == |vals|
    ensures forall k | 0 <= k < |vals| :: cnts[k] == seen[vals[k]]
  {
    vals, cnts := vals0, cnts0;
    for j := 0 to |ranks|
      invariant vals == vals0 + ranks[..j] && |cnts| == |vals|
      invariant forall k | 0 <= k < |vals| :: cnts[k] == seen[vals[k]]
    {
      vals, cnts := vals + [ranks[j]], cnts + [counts[j]];
    }
  }

  /** Whenever of two repeated keys the smaller one occurs but is predicted to a later bucket, the greater one does not
      occur, nor does any key between them that is not a repeated one. */
  ghost predicate Orderly(m: Model, repeated: seq<int>, all: multiset<int>)
    requires m.Valid()
  {
    forall v, w | v in repeated && w in repeated && w < v && m.Bucket(v) < m.Bucket(w) && w in all ::
      !InTheWay(v, w, repeated, all)
  }

  ghost predicate InTheWay(v: int, w: int, repeated: seq<int>, all: multiset<int>) {
    v in all || exists z :: z in all && w < z < v && z !in repeated
  }

  lemma LinearCounted(m: Model, repeated: seq<int>, vals: seq<int>, cnts: seq<nat>, all: multiset<int>)
    requires m.Valid() && StrictlyAscending(repeated)
    requires vals == Linear(m, repeated, 0) && |cnts| == |vals| && forall k | 0 <= k < |vals| :: cnts[k] == all[vals[k]]
    ensures Counted(vals, cnts, 0, all)
  {
    forall j, k | 0 <= j < k < |vals|
      ensures vals[j] != vals[k]
    {
      LinearOrder(m, repeated, 0, j, k);
    }
  }

  /** The other keys and the repeated ones make up the input. */
  lemma WholeInput(m: Model, repeated: seq<int>, vals: seq<int>, cnts: seq<nat>, kept: multiset<int>,
                   all: multiset<int>)
    requires m.Valid() && StrictlyAscending(repeated) && Unrepeated(kept, all, repeated)
    requires vals == Linear(m, repeated, 0) && |cnts| == |vals| && forall k | 0 <= k < |vals| :: cnts[k] == all[vals[k]]
    ensures kept + multiset(Repeats(vals, cnts, 0)) == all
  {
    LinearCounted(m, repeated, vals, cnts, all);
    forall v
      ensures (kept + multiset(Repeats(vals, cnts, 0)))[v] == all[v]
    {
      assert Looked(v) && vals[0..] == vals;
      RepeatsCount(vals, cnts, 0, all, v);
      LinearKeys(m, repeated, 0, v);
    }
  }

  lemma KeptHas(b: seq<int>, all: multiset<int>, repeated: seq<int>, z: int)
    requires Unrepeated(multiset(b), all, repeated)
    ensures z in b <==> z in all && z !in repeated
  {
    assert Looked(z) && (z in b <==> z in multiset(b));
  }

  lemma InTimeOrderly(m: Model, repeated: seq<int>, b: seq<int>, vals: seq<int>, cnts: seq<nat>, all: multiset<int>)
    requires m.Valid() && StrictlyAscending(repeated) && Unrepeated(multiset(b), all, repeated)
    requires vals == Linear(m, repeated, 0) && |cnts| == |vals| && forall k | 0 <= k < |vals| :: cnts[k] == all[vals[k]]
    requires InTime(b, vals, cnts, 0)
    ensures Orderly(m, repeated, all)
  {
    forall v, w | v in repeated && w in repeated && w < v && m.Bucket(v) < m.Bucket(w) && w in all
      ensures !InTheWay(v, w, repeated, all)
    {
      LinearKeys(m, repeated, 0, v);
      LinearKeys(m, repeated, 0, w);
      var d :| 0 <= d < |vals| && vals[d] == v;
      var f :| 0 <= f < |vals| && vals[f] == w;
      if f < d {
        LinearOrder(m, repeated, 0, f, d);
      }
      assert !TooLate(b, vals, cnts, d, f);
      forall z | z in all && w < z < v
        ensures z in repeated
      {
        KeptHas(b, all, repeated, z);
      }
    }
  }

  lemma OrderlyInTime(m: Model, repeated: seq<int>, b: seq<int>, vals: seq<int>, cnts: seq<nat>, all: multiset<int>)
    requires m.Valid() && StrictlyAscending(repeated) && Unrepeated(multiset(b), all, repeated)
    requires vals == Linear(m, repeated, 0) && |cnts| == |vals| && forall k | 0 <= k < |vals| :: cnts[k] == all[vals[k]]
    requires Orderly(m, repeated, all)
    ensures InTime(b, vals, cnts, 0)
  {
    forall d, f | 0 <= d < f < |vals|
      ensures !TooLate(b, vals, cnts, d, f)
    {
      if TooLate(b, vals, cnts, d, f) {
        LateInTheWay(m, repeated, b, vals, cnts, all, d, f);
      }
    }
  }

  lemma LateInTheWay(m: Model, repeated: seq<int>, b: seq<int>, vals: seq<int>, cnts: seq<nat>, all: multiset<int>,
                     d: nat, f: nat)
    requires m.Valid() && StrictlyAscending(repeated) && Unrepeated(multiset(b), all, repeated)
    requires vals == Linear(m, repeated, 0) && |cnts| == |vals| && forall k | 0 <= k < |vals| :: cnts[k] == all[vals[k]]
    requires d < f < |vals| && TooLate(b, vals, cnts, d, f)
    ensures vals[d] in repeated && vals[f] in repeated && vals[f] < vals[d] && m.Bucket(vals[d]) < m.Bucket(vals[f])
    ensures vals[f] in all && InTheWay(vals[d], vals[f], repeated, all)
  {
    LinearOrder(m, repeated, 0, d, f);
    LinearKeys(m, repeated, 0, vals[d]);
    LinearKeys(m, repeated, 0, vals[f]);
    if cnts[d] == 0 {
      var k :| 0 <= k < |b| && vals[f] < b[k] < vals[d];
      KeptHas(b, all, repeated, b[k]);
    }
  }

  lemma NothingCounted(m: Model, ranks: seq<seq<int>>, counts: seq<seq<nat>>, seen: multiset<int>)
    requires m.Valid() && Tallied(m, [], ranks, counts, multiset{})
    ensures Tallied(m, [], ranks, counts, seen)
  {
  }

  /** The first round: with or without repeated keys. */
  method FirstRound(a: array<int>, m: Model, repeated: seq<int>, ranks: seq<seq<int>>, counts0: seq<seq<nat>>,
                    cap: nat, major: array<int>)
    returns (inside: bool, counts: seq<seq<nat>>, total: nat, sizes: seq<nat>, spill: seq<int>,
             ghost kept: seq<seq<int>>)
    requires m.Valid() && a != major && Times(m.fanout, cap) <= major.Length
    requires StrictlyAscending(repeated) && Tallied(m, repeated, ranks, counts0, multiset{})
    modifies major
    ensures inside <==> repeated == [] || a.Length % BATCH_SZ_EXP == 0
    ensures inside ==> Shuffled(m, repeated, ranks, counts, total, major[..], cap, sizes, spill, kept, a[..])
  {
    if repeated == [] {
      inside, counts, total := true, counts0, 0;
      sizes, spill, kept := Shuffle(a, m, cap, major);
      NothingCounted(m, ranks, counts, multiset(a[..]));
      AllOthers(a[..]);
    } else {
      inside, counts, total, sizes, spill, kept := ShuffleCounting(a, m, repeated, ranks, counts0, cap, major);
    }
  }

  lemma MajorBucketsFit(n: nat, fanout: nat)
    requires fanout > 0
    ensures Times(fanout, n / fanout) <= n
  {
    TimesIsProduct(fanout, n / fanout);
  }

  /** Everything up to the sorting of the spill bucket: the repeated keys with their counts, the other keys in the
      ascending front of `major` and in the spill bucket. With repeated keys it reads beyond the input unless whole
      batches fit. */
  method Distribute(a: array<int>, m: Model, repeated: seq<int>)
    returns (inside: bool, major: array<int>, tot: nat, spill: seq<int>, vals: seq<int>, cnts: seq<nat>, total: nat,
             ghost front: multiset<int>)
    requires m.Valid() && StrictlyAscending(repeated)
    ensures fresh(major) && (inside <==> repeated == [] || a.Length % BATCH_SZ_EXP == 0)
    ensures inside ==> Front(major[..], tot, front)
    ensures inside ==> spill == Spilled(m, a.Length / m.fanout, Others(a[..], repeated))
    ensures inside ==> front + multiset(spill) == multiset(Others(a[..], repeated))
    ensures inside ==> total + |Others(a[..], repeated)| == a.Length
    ensures inside ==> vals == Linear(m, repeated, 0) && |cnts| == |vals|
    ensures inside ==> forall k | 0 <= k < |vals| :: cnts[k] == multiset(a[..])[vals[k]]
  {
    var ranks, counts := ListRepeated(m, repeated);
    major := new int[a.Length + 1];
    var cap := a.Length / m.fanout;
    MajorBucketsFit(a.Length, m.fanout);
    var sizes;
    ghost var kept;
    inside, counts, total, sizes, spill, kept := FirstRound(a, m, repeated, ranks, counts, cap, major);
    tot, vals, cnts, front := 0, [], [], multiset{};
    if !inside {
      return;
    }
    assert Looked(0);
    FirstFillConserves(m, cap, Others(a[..], repeated));
    TimesIsProduct(m.minors, m.threshold);
    var minor := new int[m.minors * m.threshold];
    tot, spill, front := SecondRound(major, sizes, m, cap, minor, spill, kept);
    vals, cnts := Flatten(m, repeated, ranks, counts, multiset(a[..]));
  }

  /** The front and the spill bucket are merged into the end of the array, then the repeated keys in place. The result
      is in order exactly if the spill bucket was and the repeated keys do no harm. */
  method MergeBack(a: array<int>, m: Model, ghost repeated: seq<int>, major: array<int>, tot: nat, spill: seq<int>,
                   vals: seq<int>, cnts: seq<nat>, total: nat, ghost front: multiset<int>, ghost all: seq<int>)
    requires m.Valid() && a != major && StrictlyAscending(repeated) && Front(major[..], tot, front)
    requires front + multiset(spill) == multiset(Others(all, repeated))
    requires total + |Others(all, repeated)| == a.Length == |all|
    requires vals == Linear(m, repeated, 0) && |cnts| == |vals|
    requires forall k | 0 <= k < |vals| :: cnts[k] == multiset(all)[vals[k]]
    modifies a
    ensures multiset(a[..]) == multiset(all)
    ensures Ascending(a[..]) <==> Ascending(spill) && Orderly(m, repeated, multiset(all))
  {
    SizesAgree(front, spill, Others(all, repeated));
    ghost var b := WriteMerged(a, major, tot, spill, total, front);
    OthersAre(all, repeated);
    WholeInput(m, repeated, vals, cnts, multiset(b), multiset(all));
    RepeatsSize(multiset(Others(all, repeated)), Others(all, repeated), Repeats(vals, cnts, 0), all);
    MergeInPlace(a, total, vals, cnts);
    WeavePermutes(b, vals, cnts, 0);
    WeaveOrder(m, repeated, b, vals, cnts, multiset(all));
  }

  lemma SizesAgree(front: multiset<int>, spill: seq<int>, others: seq<int>)
    requires front + multiset(spill) == multiset(others)
    ensures |front| + |spill| == |others|
  {
    assert |front + multiset(spill)| == |front| + |spill|;
  }

  lemma RepeatsSize(kept: multiset<int>, others: seq<int>, repeats: seq<int>, all: seq<int>)
    requires kept == multiset(others) && kept + multiset(repeats) == multiset(all)
    ensures |others| + |repeats| == |all|
  {
    assert |kept + multiset(repeats)| == |others| + |repeats|;
  }

  /** The merge of the ascending front and the spill bucket is in order exactly if the spill bucket is. */
  method WriteMerged(a: array<int>, major: array<int>, tot: nat, spill: seq<int>, total: nat,
                     ghost front: multiset<int>)
    returns (ghost b: seq<int>)
    requires a != major && Front(major[..], tot, front) && total + |front| + |spill| == a.Length
    modifies a
    ensures (Ascending(b) <==> Ascending(spill)) && multiset(b) == front + multiset(spill) && a[total..] == b
  {
    LookAtFront(major[..], tot, front);
    MergePermutes(major[..tot], spill);
    if Ascending(spill) {
      MergeSorts(major[..tot], spill);
    }
    if Ascending(Merge(major[..tot], spill)) {
      MergeShowsOrder(major[..tot], spill);
    }
    var merged := Merge(major[..tot], spill);
    assert |multiset(major[..tot])| == tot;
    forall k | total <= k < a.Length {
      a[k] := merged[k - total];
    }
    b := merged;
  }

  /** What the in-place merge leaves is in order exactly if the rest was and no repeated key is in the way. */
  lemma WeaveOrder(m: Model, repeated: seq<int>, b: seq<int>, vals: seq<int>, cnts: seq<nat>, all: multiset<int>)
    requires m.Valid() && StrictlyAscending(repeated) && Unrepeated(multiset(b), all, repeated)
    requires vals == Linear(m, repeated, 0) && |cnts| == |vals| && forall k | 0 <= k < |vals| :: cnts[k] == all[vals[k]]
    ensures Ascending(Weave(b, vals, cnts, 0)) <==> Ascending(b) && Orderly(m, repeated, all)
  {
    if Ascending(Weave(b, vals, cnts, 0)) {
      WeaveShowsOrder(b, vals, cnts, 0);
    }
    if Ascending(b) {
      WeaveAscends(b, vals, cnts, 0);
      if Orderly(m, repeated, all) {
        OrderlyInTime(m, repeated, b, vals, cnts, all);
      }
      if InTime(b, vals, cnts, 0) {
        InTimeOrderly(m, repeated, b, vals, cnts, all);
      }
    }
  }

  /** The sort with a trained model. It stays inside the input exactly if the sample has no repeated keys or whole
      batches fit; otherwise nothing is written back before it leaves. Every key is conserved.
      The statement that tests the thread and the partition was meant for a message, but without the message it governs
      the sorting of the spill bucket. On the first thread and partition the result is in order for all predictions if
      there are no repeated keys, and also if the predictions for the repeated keys are monotone. In general it is in
      order exactly when the predicted buckets of the repeated keys do no harm and, elsewhere without the message, the
      spill bucket is in order as it is. */
  method SortTrained(a: array<int>, m: Model, sample: seq<int>, printing: bool, threadId: int, partitionId: int)
    returns (inside: bool)
    requires m.Valid() && Ascending(sample)
    modifies a
    ensures inside <==> (forall v :: multiset(sample)[v] <= 60) || a.Length % 100 == 0
    ensures multiset(a[..]) == old(multiset(a[..])) && (!inside ==> a[..] == old(a[..]))
    ensures threadId == 0 && partitionId == 0 && (forall v :: multiset(sample)[v] <= 60) ==> Ascending(a[..])
    ensures threadId == 0 && partitionId == 0 && a.Length % 100 == 0 && MonotoneOnRepeated(m, sample) ==>
              Ascending(a[..])
    ensures inside && (printing || (threadId == 0 && partitionId == 0)) ==>
              (Ascending(a[..]) <==> HarmlessFor(m, sample, old(multiset(a[..]))))
    ensures inside && !printing && (threadId != 0 || partitionId != 0) ==>
              (Ascending(a[..]) <==>
                Ascending(Spilled(m, a.Length / m.fanout, Light(old(a[..]), sample))) &&
                HarmlessFor(m, sample, old(multiset(a[..]))))
  {
    var repeated := Detect(sample);
    assert repeated != [] ==> repeated[0] in repeated;
    ghost var all := a[..];
    LightAre(all, sample, repeated);
    var major, tot, spill, vals, cnts, total;
    ghost var front;
    inside, major, tot, spill, vals, cnts, total, front := Distribute(a, m, repeated);
    if !inside {
      return;
    }
    if printing || (threadId == 0 && partitionId == 0) {
      spill := Sort(spill);
    }
    MergeBack(a, m, repeated, major, tot, spill, vals, cnts, total, front, all);
    SameKeys(m, sample, repeated, multiset(all));
    MonotoneDoesNoHarm(m, sample, multiset(all));
  }

  /** The predictions for the values that occur more than 60 times in the sample are monotone. */
  ghost predicate MonotoneOnRepeated(m: Model, sample: seq<int>) {
    forall v, w | multiset(sample)[v] > 60 && multiset(sample)[w] > 60 && w < v :: m.bucket(w) <= m.bucket(v)
  }

  lemma MonotoneDoesNoHarm(m: Model, sample: seq<int>, all: multiset<int>)
    requires m.Valid()
    ensures (forall v :: multiset(sample)[v] <= 60) || MonotoneOnRepeated(m, sample) ==> HarmlessFor(m, sample, all)
  {
    if (forall v :: multiset(sample)[v] <= 60) || MonotoneOnRepeated(m, sample) {
      MonotoneHarmless(m, sample, all);
    }
  }

  /** The buckets predicted for the repeated keys do no harm to the input `all`: if such a key of the input is predicted
      to a later bucket than a greater one, then the greater one is not in the input, and all keys of the input
      between the two are repeated keys. */
  ghost predicate HarmlessFor(m: Model, sample: seq<int>, all: multiset<int>)
    requires m.Valid()
  {
    forall v, w | Heavy(sample, v) && Heavy(sample, w) && w < v && m.Bucket(v) < m.Bucket(w) && w in all ::
      v !in all && forall z | z in all && w < z < v :: Heavy(sample, z)
  }

  lemma SameKeys(m: Model, sample: seq<int>, repeated: seq<int>, all: multiset<int>)
    requires m.Valid() && forall v :: v in repeated <==> Heavy(sample, v)
    ensures Orderly(m, repeated, all) <==> HarmlessFor(m, sample, all)
  {
    if HarmlessFor(m, sample, all) {
      forall v, w | v in repeated && w in repeated && w < v && m.Bucket(v) < m.Bucket(w) && w in all
        ensures !InTheWay(v, w, repeated, all)
      {
      }
    } else {
      var v, w :| Heavy(sample, v) && Heavy(sample, w) && w < v && m.Bucket(v) < m.Bucket(w) && w in all &&
                  !(v !in all && forall z | z in all && w < z < v :: Heavy(sample, z));
      assert InTheWay(v, w, repeated, all);
    }
  }

  /** Bucket predictions that are monotone on the repeated keys do no harm; none are needed without repeated keys. */
  lemma MonotoneHarmless(m: Model, sample: seq<int>, all: multiset<int>)
    requires m.Valid()
    requires forall v, w | Heavy(sample, v) && Heavy(sample, w) && w < v :: m.Bucket(w) <= m.Bucket(v)
    ensures HarmlessFor(m, sample, all)
  {
  }

  /** If the sample was drawn from the keys to be sorted, nothing less will do. */
  lemma HarmlessMonotone(m: Model, sample: seq<int>, all: multiset<int>)
    requires m.Valid() && HarmlessFor(m, sample, all)
    requires forall v | v in sample :: v in all
    ensures forall v, w | Heavy(sample, v) && Heavy(sample, w) && w < v :: m.Bucket(w) <= m.Bucket(v)
  {
    forall v | Heavy(sample, v)
      ensures v in all
    {
      assert v in multiset(sample);
    }
  }

  /** Predictions in the wrong order do harm: with the keys 1 and 2 a hundred times each, and 2 predicted to bucket 0
      but 1 to bucket 1, the result is not in order. */
  lemma WrongOrderHarms() returns (m: Model, sample: seq<int>, all: multiset<int>)
    ensures m.Valid() && Ascending(sample) && |all| % BATCH_SZ_EXP == 0 && (forall v | v in sample :: v in all)
    ensures !HarmlessFor(m, sample, all)
  {
    m := Model(2, 1, 100, 10, x => 2 - x, x => 0, (i, x) => 0, (i, j, l, x) => 0);
    sample := TwoRuns(EXC_CNT_THRESHOLD + 1);
    all := multiset{}[1 := 100][2 := 100];
    assert m.Bucket(1) == 1 && m.Bucket(2) == 0;
  }

  lemma TwoRuns(n: nat) returns (sample: seq<int>)
    requires n > EXC_CNT_THRESHOLD
    ensures Ascending(sample) && Heavy(sample, 1) && Heavy(sample, 2) && forall v | v in sample :: v == 1 || v == 2
  {
    var ones, twos := Copies(1, n), Copies(2, n);
    sample := ones + twos;
    OftenIn(1, n, ones, twos, sample);
    OftenIn(2, n, twos, ones, sample);
  }

  lemma OftenIn(v: int, n: nat, run: seq<int>, other: seq<int>, sample: seq<int>)
    requires n > EXC_CNT_THRESHOLD && run == Copies(v, n) && (sample == run + other || sample == other + run)
    ensures Heavy(sample, v)
  {
    CopiesHold(v, n);
    Concatenated(run, other);
    Concatenated(other, run);
  }

  lemma Concatenated(x: seq<int>, y: seq<int>)
    ensures multiset(x + y) == multiset(x) + multiset(y)
  {
  }

  /** If all keys are predicted to one major bucket, those that come when it is full spill in the order they come in. */
  lemma {:induction false} OneBucketSpills(m: Model, cap: nat, keys: seq<int>)
    requires m.Valid() && forall k | 0 <= k < |keys| :: m.Bucket(keys[k]) == 0
    ensures
      var f := FirstFill(m, cap, keys);
      var n := if |keys| < cap then |keys| else cap;
      f.kept[0] == keys[..n] && f.spill == keys[n..]
  {
    if keys != [] {
      var n := |keys| - 1;
      OneBucketSpills(m, cap, keys[..n]);
      FirstFillMore(m, cap, keys[..n], keys[n]);
      assert keys == keys[..n] + [keys[n]];
    }
  }

  lemma {:induction false} SpillStays(m: Model, kept: seq<seq<int>>, i: nat, spill: seq<int>)
    requires m.Valid() && i <= |kept|
    ensures |spill| <= |SpillAfter(m, kept, i, spill)| && SpillAfter(m, kept, i, spill)[..|spill|] == spill
  {
    if i > 0 {
      var before := SpillAfter(m, kept, i - 1, spill);
      SpillStays(m, kept, i - 1, spill);
      SpillGrows(Fill(NoKeys(m.minors), before), kept[i - 1], Minors(m, i - 1, kept[i - 1]), m.threshold);
      assert SpillAfter(m, kept, i, spill)[..|before|] == before;
    }
  }

  /** At least four descending keys without repeated ones that are all predicted to the first of at least two buckets
      are not in order when they spill. */
  lemma SpillsUnsorted(m: Model, keys: seq<int>, sample: seq<int>)
    requires m.Valid() && m.fanout > 1 && |keys| >= 4
    requires forall v :: !Heavy(sample, v)
    requires forall i, j | 0 <= i < j < |keys| :: keys[i] > keys[j]
    requires forall k | 0 <= k < |keys| :: m.bucket(keys[k]) == 0
    ensures !Ascending(Spilled(m, |keys| / m.fanout, Light(keys, sample)))
  {
    AllLight(keys, sample);
    var cap := |keys| / m.fanout;
    Halved(|keys|, m.fanout);
    OneBucketSpills(m, cap, keys);
    var f := FirstFill(m, cap, keys);
    SpillStays(m, f.kept, m.fanout, f.spill);
    var spilled := Spilled(m, cap, keys);
    assert spilled[0] == spilled[..|f.spill|][0] == keys[cap];
    assert spilled[1] == spilled[..|f.spill|][1] == keys[cap + 1];
  }

  /** Without the message every thread and partition but the first leaves such keys out of order. */
  method OtherThreadsUnsorted(a: array<int>, m: Model, sample: seq<int>, threadId: int, partitionId: int)
    requires m.Valid() && m.fanout > 1 && a.Length >= 4 && (threadId != 0 || partitionId != 0)
    requires Ascending(sample) && forall v :: multiset(sample)[v] <= 60
    requires forall i, j | 0 <= i < j < a.Length :: a[i] > a[j]
    requires forall k | 0 <= k < a.Length :: m.bucket(a[k]) == 0
    modifies a
    ensures !Ascending(a[..]) && multiset(a[..]) == old(multiset(a[..]))
  {
    SpillsUnsorted(m, a[..], sample);
    var inside := SortTrained(a, m, sample, false, threadId, partitionId);
  }

  lemma Halved(n: nat, fanout: nat)
    requires fanout > 1 && n >= 4
    ensures n / fanout + 2 <= n
  {
    var q := n / fanout;
    assert n == fanout * q + n % fanout;
    if q > 0 {
      AtLeastTwice(fanout, q);
    }
  }

  lemma {:induction false} AtLeastTwice(fanout: nat, q: nat)
    requires fanout > 1
    ensures fanout * q >= q + q
  {
    if q > 0 {
      AtLeastTwice(fanout, q - 1);
    }
  }
}
