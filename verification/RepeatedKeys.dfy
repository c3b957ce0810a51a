/** Heavily repeated keys: they are found in the training sample, counted instead of shuffled, and merged back in
    place over the sorted rest. */
module RepeatedKeys {
  import opened Gates
  import opened SortSpec
  import opened LearnedSort

  const EXC_CNT_THRESHOLD := 60

  // ---------------------------------------------------------------- detection

  ghost predicate StrictlyAscending(s: seq<int>) {
    forall i, j | 0 <= i < j < |s| :: s[i] < s[j]
  }

  ghost predicate Heavy(sample: seq<int>, v: int) {
    multiset(sample)[v] > EXC_CNT_THRESHOLD
  }

  lemma AppendAbove(s: seq<int>, x: int)
    requires StrictlyAscending(s) && forall v | v in s :: v < x
    ensures StrictlyAscending(s + [x])
  {
    forall i | 0 <= i < |s|
      ensures s[i] < x
    {
      assert s[i] in s;
    }
  }

  /** sample[i - 1] has occurred `cnt` times up to there, and `repeated` lists the heavily repeated values before it. */
  ghost predicate Detected(sample: seq<int>, i: nat, repeated: seq<int>, cnt: nat)
    requires 0 < i <= |sample|
  {
    && cnt == multiset(sample[..i])[sample[i - 1]]
    && StrictlyAscending(repeated)
    && forall v :: v in repeated <==> v < sample[i - 1] && Heavy(sample[..i], v)
  }

  /** A run of equal values has ended: its value is kept if the run was long enough. */
  method EndRun(ghost sample: seq<int>, ghost i: nat, repeated0: seq<int>, value: int, cnt: nat)
    returns (repeated: seq<int>)
    requires Ascending(sample) && 0 < i <= |sample| && Detected(sample, i, repeated0, cnt) && value == sample[i - 1]
    ensures StrictlyAscending(repeated) && forall v :: v in repeated <==> Heavy(sample[..i], v)
  {
    repeated := repeated0;
    Highest(sample, i);
    if cnt > EXC_CNT_THRESHOLD {
      AppendAbove(repeated, value);
      repeated := repeated + [value];
    }
  }

  lemma Highest(sample: seq<int>, i: nat)
    requires Ascending(sample) && 0 < i <= |sample|
    ensures forall v | v in multiset(sample[..i]) :: v <= sample[i - 1]
  {
    forall v | v in multiset(sample[..i])
      ensures v <= sample[i - 1]
    {
      assert v in sample[..i];
    }
  }

  lemma SameValue(sample: seq<int>, i: nat, repeated: seq<int>, cnt: nat)
    requires 0 < i < |sample| && sample[i] == sample[i - 1] && Detected(sample, i, repeated, cnt)
    ensures Detected(sample, i + 1, repeated, cnt + 1)
  {
    assert sample[..i + 1] == sample[..i] + [sample[i]];
  }

  lemma NewValue(sample: seq<int>, i: nat, repeated: seq<int>)
    requires Ascending(sample) && 0 < i < |sample| && sample[i] != sample[i - 1]
    requires StrictlyAscending(repeated) && forall v :: v in repeated <==> Heavy(sample[..i], v)
    ensures Detected(sample, i + 1, repeated, 1)
  {
    Highest(sample, i);
    assert sample[..i + 1] == sample[..i] + [sample[i]];
    assert multiset(sample[..i + 1]) == multiset(sample[..i]) + multiset{sample[i]};
  }

  /** The values of an ascending sample that occur more than EXC_CNT_THRESHOLD times, ascending. */
  method Detect(sample: seq<int>) returns (repeated: seq<int>)
    requires Ascending(sample)
    ensures StrictlyAscending(repeated) && forall v :: v in repeated <==> multiset(sample)[v] > 60
  {
    repeated := [];
    if sample == [] {
      return;
    }
    var cnt := 1;
    assert sample[..1] == [sample[0]];
    for i := 1 to |sample|
      invariant Detected(sample, i, repeated, cnt)
    {
      if sample[i] == sample[i - 1] {
        SameValue(sample, i, repeated, cnt);
        cnt := cnt + 1;
      } else {
        repeated := EndRun(sample, i, repeated, sample[i - 1], cnt);
        NewValue(sample, i, repeated);
        cnt := 1;
      }
    }
    assert sample[..|sample|] == sample;
    repeated := EndRun(sample, |sample|, repeated, sample[|sample| - 1], cnt);
  }

  // ---------------------------------------------------------------- the repeated keys by bucket

  /** The keys of `repeated` predicted to bucket `b`, in order. */
  ghost function Chosen(m: Model, repeated: seq<int>, b: nat): seq<int>
    requires m.Valid()
  {
    if repeated == [] then []
    else Chosen(m, repeated[..|repeated| - 1], b) +
         if m.Bucket(repeated[|repeated| - 1]) == b then [repeated[|repeated| - 1]] else []
  }

  /** The repeated keys from bucket `b` on, bucket by bucket. */
  ghost function Linear(m: Model, repeated: seq<int>, b: nat): seq<int>
    requires m.Valid() && b <= m.fanout
    decreases m.fanout - b
  {
    if b == m.fanout then [] else Chosen(m, repeated, b) + Linear(m, repeated, b + 1)
  }

  lemma {:induction false} ChosenKeys(m: Model, repeated: seq<int>, b: nat)
    requires m.Valid() && StrictlyAscending(repeated)
    ensures StrictlyAscending(Chosen(m, repeated, b))
    ensures forall v :: v in Chosen(m, repeated, b) <==> v in repeated && m.Bucket(v) == b
  {
    if repeated != [] {
      var n := |repeated| - 1;
      assert repeated == repeated[..n] + [repeated[n]];
      ChosenKeys(m, repeated[..n], b);
      if m.Bucket(repeated[n]) == b {
        AppendAbove(Chosen(m, repeated[..n], b), repeated[n]);
      }
    }
  }

  lemma {:induction false} LinearKeys(m: Model, repeated: seq<int>, b: nat, v: int)
    requires m.Valid() && StrictlyAscending(repeated) && b <= m.fanout
    ensures v in Linear(m, repeated, b) <==> v in repeated && m.Bucket(v) >= b
    decreases m.fanout - b
  {
    if b < m.fanout {
      ChosenKeys(m, repeated, b);
      LinearKeys(m, repeated, b + 1, v);
    }
  }

  /** Key `v` comes before key `w` where the repeated keys are listed bucket by bucket. */
  ghost predicate Sooner(m: Model, v: int, w: int)
    requires m.Valid()
  {
    m.Bucket(v) < m.Bucket(w) || (m.Bucket(v) == m.Bucket(w) && v < w)
  }

  lemma {:induction false} LinearOrder(m: Model, repeated: seq<int>, b: nat, i: nat, j: nat)
    requires m.Valid() && StrictlyAscending(repeated) && b <= m.fanout && i < j < |Linear(m, repeated, b)|
    ensures Sooner(m, Linear(m, repeated, b)[i], Linear(m, repeated, b)[j])
    decreases m.fanout - b
  {
    var c := Chosen(m, repeated, b);
    if |c| <= i {
      LinearOrder(m, repeated, b + 1, i - |c|, j - |c|);
    } else if |c| <= j {
      var l := Linear(m, repeated, b + 1);
      assert c[i] in c && l[j - |c|] in l;
      ChosenBeforeLinear(m, repeated, b, c[i], l[j - |c|]);
    } else {
      ChosenKeys(m, repeated, b);
      assert c[i] in c && c[j] in c;
    }
  }

  lemma ChosenBeforeLinear(m: Model, repeated: seq<int>, b: nat, v: int, w: int)
    requires m.Valid() && StrictlyAscending(repeated) && b < m.fanout
    requires v in Chosen(m, repeated, b) && w in Linear(m, repeated, b + 1)
    ensures Sooner(m, v, w)
  {
    ChosenKey(m, repeated, b, v);
    LinearKeys(m, repeated, b + 1, w);
  }

  lemma ChosenKey(m: Model, repeated: seq<int>, b: nat, v: int)
    requires m.Valid() && StrictlyAscending(repeated)
    ensures v in Chosen(m, repeated, b) <==> v in repeated && m.Bucket(v) == b
  {
    ChosenKeys(m, repeated, b);
  }

  // ---------------------------------------------------------------- merging in place

  function Copies(v: int, c: nat): (r: seq<int>)
    ensures |r| == c && forall k | 0 <= k < c :: r[k] == v
  {
    if c == 0 then [] else [v] + Copies(v, c - 1)
  }

  lemma {:induction false} CopiesHold(v: int, c: nat)
    ensures multiset(Copies(v, c)) == multiset{}[v := c]
  {
    if c > 0 {
      CopiesHold(v, c - 1);
      assert multiset([v] + Copies(v, c - 1)) == multiset{v} + multiset(Copies(v, c - 1));
    }
  }

  /** cnts[k] copies of vals[k] for each k from `e` on, in this order. */
  ghost function Repeats(vals: seq<int>, cnts: seq<nat>, e: nat): seq<int>
    requires e <= |vals| == |cnts|
    decreases |vals| - e
  {
    if e == |vals| then [] else Copies(vals[e], cnts[e]) + Repeats(vals, cnts, e + 1)
  }

  /** vals[e..] names every value once, and `cnts` says how often each occurs in `all`. */
  ghost predicate Counted(vals: seq<int>, cnts: seq<nat>, e: nat, all: multiset<int>) {
    && e <= |vals| == |cnts|
    && (forall j, k | e <= j < k < |vals| :: vals[j] != vals[k])
    && (forall k | e <= k < |vals| :: cnts[k] == all[vals[k]])
  }

  lemma {:induction false} RepeatsCount(vals: seq<int>, cnts: seq<nat>, e: nat, all: multiset<int>, v: int)
    requires Counted(vals, cnts, e, all)
    ensures multiset(Repeats(vals, cnts, e))[v] == if v in vals[e..] then all[v] else 0
    decreases |vals| - e
  {
    if e < |vals| {
      RepeatsCount(vals, cnts, e + 1, all, v);
      CopiesHold(vals[e], cnts[e]);
      assert vals[e..] == [vals[e]] + vals[e + 1..];
    }
  }

  lemma {:induction false} RepeatsHave(vals: seq<int>, cnts: seq<nat>, e: nat, v: int)
    requires e <= |vals| == |cnts|
    ensures v in Repeats(vals, cnts, e) <==> Among(vals, cnts, e, v)
    decreases |vals| - e
  {
    if e < |vals| {
      RepeatsHave(vals, cnts, e + 1, v);
      CopiesHave(vals[e], cnts[e], Repeats(vals, cnts, e + 1), v);
      AmongStep(vals, cnts, e, v);
    }
  }

  /** `v` is one of vals[e..] and there are copies of it. */
  ghost predicate Among(vals: seq<int>, cnts: seq<nat>, e: nat, v: int)
    requires |vals| == |cnts|
  {
    exists k :: e <= k < |vals| && vals[k] == v && cnts[k] > 0
  }

  lemma AmongStep(vals: seq<int>, cnts: seq<nat>, e: nat, v: int)
    requires e < |vals| == |cnts|
    ensures Among(vals, cnts, e, v) <==> (vals[e] == v && cnts[e] > 0) || Among(vals, cnts, e + 1, v)
  {
  }

  lemma CopiesHave(w: int, c: nat, rest: seq<int>, v: int)
    ensures v in Copies(w, c) + rest <==> (w == v && c > 0) || v in rest
  {
    if w == v && c > 0 {
      assert (Copies(w, c) + rest)[0] == v;
    }
  }

  /** The ascending `b`, with the copies of vals[e], vals[e + 1], ... put in one after the other, each before the first
      element that is not smaller. */
  ghost function Weave(b: seq<int>, vals: seq<int>, cnts: seq<nat>, e: nat): seq<int>
    requires e <= |vals| == |cnts|
    decreases |b|, |vals| - e
  {
    if e == |vals| then b
    else if b != [] && b[0] < vals[e] then [b[0]] + Weave(b[1..], vals, cnts, e)
    else Copies(vals[e], cnts[e]) + Weave(b, vals, cnts, e + 1)
  }

  lemma {:induction false} WeavePermutes(b: seq<int>, vals: seq<int>, cnts: seq<nat>, e: nat)
    requires e <= |vals| == |cnts|
    ensures multiset(Weave(b, vals, cnts, e)) == multiset(b) + multiset(Repeats(vals, cnts, e))
    decreases |b|, |vals| - e, 1
  {
    if e < |vals| {
      if b != [] && b[0] < vals[e] {
        ElementPermutes(b, vals, cnts, e);
      } else {
        ValuePermutes(b, vals, cnts, e);
      }
    }
  }

  lemma {:induction false} ElementPermutes(b: seq<int>, vals: seq<int>, cnts: seq<nat>, e: nat)
    requires e < |vals| == |cnts| && b != [] && b[0] < vals[e]
    ensures multiset(Weave(b, vals, cnts, e)) == multiset(b) + multiset(Repeats(vals, cnts, e))
    decreases |b|, |vals| - e, 0
  {
    WeavePermutes(b[1..], vals, cnts, e);
    FirstThrough(b, Weave(b[1..], vals, cnts, e), Repeats(vals, cnts, e));
  }

  lemma {:induction false} ValuePermutes(b: seq<int>, vals: seq<int>, cnts: seq<nat>, e: nat)
    requires e < |vals| == |cnts| && (b == [] || !(b[0] < vals[e]))
    ensures multiset(Weave(b, vals, cnts, e)) == multiset(b) + multiset(Repeats(vals, cnts, e))
    decreases |b|, |vals| - e, 0
  {
    WeavePermutes(b, vals, cnts, e + 1);
    InFront(Copies(vals[e], cnts[e]), Weave(b, vals, cnts, e + 1), b, Repeats(vals, cnts, e + 1));
  }

  lemma FirstThrough(b: seq<int>, w: seq<int>, r: seq<int>)
    requires b != [] && multiset(w) == multiset(b[1..]) + multiset(r)
    ensures multiset([b[0]] + w) == multiset(b) + multiset(r)
  {
    assert b == [b[0]] + b[1..];
  }

  lemma InFront(c: seq<int>, w: seq<int>, b: seq<int>, r: seq<int>)
    requires multiset(w) == multiset(b) + multiset(r)
    ensures multiset(c + w) == multiset(b) + multiset(c + r)
  {
  }

  lemma WeaveHas(b: seq<int>, vals: seq<int>, cnts: seq<nat>, e: nat, v: int)
    requires e <= |vals| == |cnts|
    ensures v in Weave(b, vals, cnts, e) <==> v in b || Among(vals, cnts, e, v)
  {
    WeavePermutes(b, vals, cnts, e);
    RepeatsHave(vals, cnts, e, v);
    assert v in Weave(b, vals, cnts, e) <==> v in multiset(Weave(b, vals, cnts, e));
  }

  lemma WeaveAtLeast(b: seq<int>, vals: seq<int>, cnts: seq<nat>, e: nat, v: int)
    requires e <= |vals| == |cnts| && forall k | 0 <= k < |b| :: v <= b[k]
    ensures (forall k | 0 <= k < |Weave(b, vals, cnts, e)| :: v <= Weave(b, vals, cnts, e)[k]) <==>
            (forall k | e <= k < |vals| && cnts[k] > 0 :: v <= vals[k])
  {
    var w := Weave(b, vals, cnts, e);
    if forall k | 0 <= k < |w| :: v <= w[k] {
      forall k | e <= k < |vals| && cnts[k] > 0
        ensures v <= vals[k]
      {
        WeaveHas(b, vals, cnts, e, vals[k]);
      }
    }
    if forall k | e <= k < |vals| && cnts[k] > 0 :: v <= vals[k] {
      forall k | 0 <= k < |w|
        ensures v <= w[k]
      {
        WeaveHas(b, vals, cnts, e, w[k]);
      }
    }
  }

  /** vals[f] comes too late to be in order. */
  ghost predicate TooLate(b: seq<int>, vals: seq<int>, cnts: seq<nat>, d: nat, f: nat)
    requires d < f < |vals| == |cnts|
  {
    cnts[f] > 0 && vals[f] < vals[d] && (cnts[d] > 0 || exists k :: 0 <= k < |b| && vals[f] < b[k] < vals[d])
  }

  ghost predicate InTime(b: seq<int>, vals: seq<int>, cnts: seq<nat>, e: nat)
    requires |vals| == |cnts|
  {
    forall d, f | e <= d < f < |vals| :: !TooLate(b, vals, cnts, d, f)
  }

  lemma CopiesAscend(v: int, c: nat, vs: seq<int>, w: seq<int>)
    requires |vs| == c && forall i | 0 <= i < c :: vs[i] == v
    ensures Ascending(vs + w) <==> Ascending(w) && (c > 0 ==> forall k | 0 <= k < |w| :: v <= w[k])
  {
    AppendAscends(vs, w);
    assert c > 0 ==> vs[0] == v;
  }

  /** The result is in order exactly when no value comes too late. */
  lemma {:induction false} WeaveAscends(b: seq<int>, vals: seq<int>, cnts: seq<nat>, e: nat)
    requires e <= |vals| == |cnts| && Ascending(b)
    ensures Ascending(Weave(b, vals, cnts, e)) <==> InTime(b, vals, cnts, e)
    decreases |b|, |vals| - e
  {
    if e < |vals| {
      if b != [] && b[0] < vals[e] {
        WeaveAscends(b[1..], vals, cnts, e);
        WeaveAtLeast(b[1..], vals, cnts, e, b[0]);
        CopiesAscend(b[0], 1, [b[0]], Weave(b[1..], vals, cnts, e));
        InTimeAfterElement(b, vals, cnts, e);
      } else {
        WeaveAscends(b, vals, cnts, e + 1);
        WeaveAtLeast(b, vals, cnts, e + 1, vals[e]);
        CopiesAscend(vals[e], cnts[e], Copies(vals[e], cnts[e]), Weave(b, vals, cnts, e + 1));
        InTimeAfterValue(b, vals, cnts, e);
      }
    }
  }

  lemma LateWithoutFirst(b: seq<int>, vals: seq<int>, cnts: seq<nat>, d: nat, f: nat)
    requires d < f < |vals| == |cnts| && b != [] && TooLate(b, vals, cnts, d, f)
    ensures TooLate(b[1..], vals, cnts, d, f) || (cnts[f] > 0 && vals[f] < b[0])
  {
    if cnts[d] == 0 {
      var k :| 0 <= k < |b| && vals[f] < b[k] < vals[d];
      assert k > 0 ==> b[1..][k - 1] == b[k];
    }
  }

  /** The result is in order only if `b` was. */
  lemma {:induction false} WeaveShowsOrder(b: seq<int>, vals: seq<int>, cnts: seq<nat>, e: nat)
    requires e <= |vals| == |cnts| && Ascending(Weave(b, vals, cnts, e))
    ensures Ascending(b)
    decreases |b|, |vals| - e
  {
    if e < |vals| {
      if b != [] && b[0] < vals[e] {
        var rest := b[1..];
        CopiesAscend(b[0], 1, [b[0]], Weave(rest, vals, cnts, e));
        WeaveShowsOrder(rest, vals, cnts, e);
        forall k | 0 <= k < |rest|
          ensures b[0] <= rest[k]
        {
          WeaveHas(rest, vals, cnts, e, rest[k]);
        }
      } else {
        CopiesAscend(vals[e], cnts[e], Copies(vals[e], cnts[e]), Weave(b, vals, cnts, e + 1));
        WeaveShowsOrder(b, vals, cnts, e + 1);
      }
    }
  }

  lemma InTimeAfterElement(b: seq<int>, vals: seq<int>, cnts: seq<nat>, e: nat)
    requires e < |vals| == |cnts| && b != [] && b[0] < vals[e]
    ensures InTime(b, vals, cnts, e) <==>
            InTime(b[1..], vals, cnts, e) && forall k | e <= k < |vals| && cnts[k] > 0 :: b[0] <= vals[k]
  {
    if InTime(b, vals, cnts, e) {
      forall k | e <= k < |vals| && cnts[k] > 0
        ensures b[0] <= vals[k]
      {
        if vals[k] < b[0] {
          assert TooLate(b, vals, cnts, e, k);
        }
      }
      forall d, f | e <= d < f < |vals|
        ensures !TooLate(b[1..], vals, cnts, d, f)
      {
        assert !TooLate(b, vals, cnts, d, f);
      }
    } else if InTime(b[1..], vals, cnts, e) {
      var d, f :| e <= d < f < |vals| && TooLate(b, vals, cnts, d, f);
      LateWithoutFirst(b, vals, cnts, d, f);
    }
  }

  lemma InTimeAfterValue(b: seq<int>, vals: seq<int>, cnts: seq<nat>, e: nat)
    requires e < |vals| == |cnts| && forall k | 0 <= k < |b| :: vals[e] <= b[k]
    ensures InTime(b, vals, cnts, e) <==>
            InTime(b, vals, cnts, e + 1) &&
            (cnts[e] > 0 ==> forall k | e + 1 <= k < |vals| && cnts[k] > 0 :: vals[e] <= vals[k])
  {
    if InTime(b, vals, cnts, e) {
      assert InTime(b, vals, cnts, e + 1);
      forall k | e + 1 <= k < |vals| && cnts[k] > 0 && cnts[e] > 0
        ensures vals[e] <= vals[k]
      {
        assert !TooLate(b, vals, cnts, e, k);
      }
    }
  }

  /** One repeated key is written `c` times. */
  method WriteCopies(a: array<int>, ptr: nat, v: int, c: nat)
    requires ptr + c <= a.Length
    modifies a
    ensures a[..ptr + c] == old(a[..ptr]) + Copies(v, c)
    ensures forall x | ptr + c <= x < a.Length :: a[x] == old(a[x])
  {
    for i := 0 to c
      invariant forall x | 0 <= x < ptr || ptr + i <= x < a.Length :: a[x] == old(a[x])
      invariant forall x | ptr <= x < ptr + i :: a[x] == v
    {
      a[ptr + i] := v;
    }
  }

  /** Between the write and the read index there is always just room for the repeated keys still to be written, so
      nothing unread is overwritten. */
  ghost predicate Midway(s: seq<int>, ptr: nat, input: nat, vals: seq<int>, cnts: seq<nat>, e: nat, want: seq<int>) {
    && e <= |vals| == |cnts| && input <= |s|
    && forall u {:trigger Looked(u)} | Looked(u) ::
         && input - ptr == |Repeats(vals, cnts, e)|
         && s[..ptr] + Weave(s[input..], vals, cnts, e) == want
  }

  method MergeInPlace(a: array<int>, total: nat, vals: seq<int>, cnts: seq<nat>)
    requires |vals| == |cnts| && total == |Repeats(vals, cnts, 0)| && total <= a.Length
    modifies a
    ensures a[..] == Weave(old(a[total..]), vals, cnts, 0)
  {
    ghost var want := Weave(a[total..], vals, cnts, 0);
    NothingMerged(a[..], total, vals, cnts);
    var exc, input, ptr := MergeWhileBoth(a, total, vals, cnts, want);
    exc, ptr := MergeRepeats(a, ptr, input, vals, cnts, exc, want);
    MergeRest(a, ptr, input, vals, cnts, want);
  }

  method MergeWhileBoth(a: array<int>, total: nat, vals: seq<int>, cnts: seq<nat>, ghost want: seq<int>)
    returns (exc: nat, input: nat, ptr: nat)
    requires Midway(a[..], 0, total, vals, cnts, 0, want)
    modifies a
    ensures Midway(a[..], ptr, input, vals, cnts, exc, want) && (input == a.Length || exc == |vals|)
  {
    exc, input, ptr := 0, total, 0;
    while input < a.Length && exc < |vals|
      invariant Midway(a[..], ptr, input, vals, cnts, exc, want)
      decreases a.Length - input + |vals| - exc
    {
      if a[input] < vals[exc] {
        CopyBack(a, ptr, input, vals, cnts, exc, want);
        ptr, input := ptr + 1, input + 1;
      } else {
        PutCopies(a, ptr, input, vals, cnts, exc, want);
        ptr, exc := ptr + cnts[exc], exc + 1;
      }
    }
  }

  method MergeRepeats(a: array<int>, ptr0: nat, input: nat, vals: seq<int>, cnts: seq<nat>, exc0: nat,
                      ghost want: seq<int>)
    returns (exc: nat, ptr: nat)
    requires Midway(a[..], ptr0, input, vals, cnts, exc0, want) && (input == a.Length || exc0 == |vals|)
    modifies a
    ensures Midway(a[..], ptr, input, vals, cnts, exc, want) && exc == |vals|
  {
    exc, ptr := exc0, ptr0;
    while exc < |vals|
      invariant Midway(a[..], ptr, input, vals, cnts, exc, want)
      invariant input == a.Length || exc == |vals|
    {
      PutCopies(a, ptr, input, vals, cnts, exc, want);
      ptr, exc := ptr + cnts[exc], exc + 1;
    }
  }

  method MergeRest(a: array<int>, ptr0: nat, input0: nat, vals: seq<int>, cnts: seq<nat>, ghost want: seq<int>)
    requires Midway(a[..], ptr0, input0, vals, cnts, |vals|, want)
    modifies a
    ensures a[..] == want
  {
    var ptr, input := ptr0, input0;
    while input < a.Length
      invariant Midway(a[..], ptr, input, vals, cnts, |vals|, want)
    {
      CopyBack(a, ptr, input, vals, cnts, |vals|, want);
      ptr, input := ptr + 1, input + 1;
    }
    AllMerged(a[..], ptr, vals, cnts, want);
  }

  lemma NothingMerged(s: seq<int>, total: nat, vals: seq<int>, cnts: seq<nat>)
    requires |vals| == |cnts| && total == |Repeats(vals, cnts, 0)| && total <= |s|
    ensures Midway(s, 0, total, vals, cnts, 0, Weave(s[total..], vals, cnts, 0))
  {
    var w := Weave(s[total..], vals, cnts, 0);
    assert s[..0] + w == w;
  }

  lemma AllMerged(s: seq<int>, ptr: nat, vals: seq<int>, cnts: seq<nat>, want: seq<int>)
    requires Midway(s, ptr, |s|, vals, cnts, |vals|, want)
    ensures s == want
  {
    assert Looked(0);
  }

  /** The next element of the sorted rest is copied to the front. */
  method CopyBack(a: array<int>, ptr: nat, input: nat, ghost vals: seq<int>, ghost cnts: seq<nat>, ghost e: nat,
                  ghost want: seq<int>)
    requires Midway(a[..], ptr, input, vals, cnts, e, want) && input < a.Length
    requires e == |vals| || a[input] < vals[e]
    modifies a
    ensures Midway(a[..], ptr + 1, input + 1, vals, cnts, e, want)
  {
    ghost var s := a[..];
    LookMidway(s, ptr, input, vals, cnts, e, want);
    a[ptr] := a[input];
    ElementWritten(s, a[..], ptr, input, vals, cnts, e, want);
  }

  lemma ElementWritten(s: seq<int>, r: seq<int>, ptr: nat, input: nat, vals: seq<int>, cnts: seq<nat>, e: nat,
                       want: seq<int>)
    requires Midway(s, ptr, input, vals, cnts, e, want) && input < |s| && (e == |vals| || s[input] < vals[e])
    requires ptr <= input && r == s[ptr := s[input]]
    ensures Midway(r, ptr + 1, input + 1, vals, cnts, e, want)
  {
    assert Looked(0);
    var rest := s[input..];
    assert r[..ptr + 1] == s[..ptr] + [s[input]];
    assert r[input + 1..] == rest[1..];
    Reassociate(s[..ptr], [s[input]], Weave(rest[1..], vals, cnts, e));
  }

  /** The copies of the next repeated key are written to the front. */
  method PutCopies(a: array<int>, ptr: nat, input: nat, vals: seq<int>, cnts: seq<nat>, e: nat, ghost want: seq<int>)
    requires Midway(a[..], ptr, input, vals, cnts, e, want) && e < |vals|
    requires input == a.Length || !(a[input] < vals[e])
    modifies a
    ensures Midway(a[..], ptr + cnts[e], input, vals, cnts, e + 1, want)
  {
    ghost var s := a[..];
    LookMidway(s, ptr, input, vals, cnts, e, want);
    WriteCopies(a, ptr, vals[e], cnts[e]);
    CopiesWritten(s, a[..], ptr, input, vals, cnts, e, want);
  }

  lemma LookMidway(s: seq<int>, ptr: nat, input: nat, vals: seq<int>, cnts: seq<nat>, e: nat, want: seq<int>)
    requires Midway(s, ptr, input, vals, cnts, e, want)
    ensures ptr <= input && (e < |vals| ==> ptr + cnts[e] <= input)
  {
    assert Looked(0);
  }

  lemma CopiesWritten(s: seq<int>, r: seq<int>, ptr: nat, input: nat, vals: seq<int>, cnts: seq<nat>, e: nat,
                      want: seq<int>)
    requires Midway(s, ptr, input, vals, cnts, e, want) && e < |vals| && (input == |s| || !(s[input] < vals[e]))
    requires |r| == |s| && ptr + cnts[e] <= input && r[..ptr + cnts[e]] == s[..ptr] + Copies(vals[e], cnts[e])
    requires forall x | ptr + cnts[e] <= x < |s| :: r[x] == s[x]
    ensures Midway(r, ptr + cnts[e], input, vals, cnts, e + 1, want)
  {
    assert Looked(0);
    assert r[input..] == s[input..];
    Reassociate(s[..ptr], Copies(vals[e], cnts[e]), Weave(s[input..], vals, cnts, e + 1));
  }

  lemma Reassociate(x: seq<int>, y: seq<int>, z: seq<int>)
    ensures x + (y + z) == (x + y) + z
  {
  }
}
