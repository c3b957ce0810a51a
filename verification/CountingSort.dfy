/** The model-based counting sort: a minor bucket is written to consecutive places of the result in the order of the
    predicted places. The counters are unsigned 32-bit integers, and the first one may wrap around on the way. */
module CountingSort {
  import opened Gates
  import opened SortSpec

  /** An unsigned 32-bit value. */
  function Wrap(x: int): nat {
    x % 0x1_0000_0000
  }

  lemma WrapAdd(x: int, y: int)
    ensures Wrap(x + Wrap(y)) == Wrap(x + y)
  {
  }

  /** How many of the first `n` predictions are `q`. */
  ghost function Cnt(preds: seq<nat>, n: nat, q: nat): (c: nat)
    requires n <= |preds|
    ensures c <= n
  {
    if n == 0 then 0 else Cnt(preds, n - 1, q) + if preds[n - 1] == q then 1 else 0
  }

  /** How many of the first `n` predictions are at most `q`. */
  ghost function Cum(preds: seq<nat>, n: nat, q: nat): (c: nat)
    requires n <= |preds|
    ensures c <= n
  {
    if n == 0 then 0 else Cum(preds, n - 1, q) + if preds[n - 1] <= q then 1 else 0
  }

  lemma {:induction false} CumStep(preds: seq<nat>, n: nat, q: nat)
    requires n <= |preds|
    ensures Cum(preds, n, q) == Cnt(preds, n, q) + if q == 0 then 0 else Cum(preds, n, q - 1)
  {
    if n > 0 {
      CumStep(preds, n - 1, q);
    }
  }

  lemma {:induction false} CumAll(preds: seq<nat>, n: nat, q: nat)
    requires n <= |preds| && forall i | 0 <= i < n :: preds[i] <= q
    ensures Cum(preds, n, q) == n
  {
    if n > 0 {
      CumAll(preds, n - 1, q);
    }
  }

  lemma {:induction false} CumMonotone(preds: seq<nat>, n: nat, p: nat, q: nat)
    requires n <= |preds| && p <= q
    ensures Cum(preds, n, p) <= Cum(preds, n, q)
  {
    if n > 0 {
      CumMonotone(preds, n - 1, p, q);
    }
  }

  lemma {:induction false} CntMonotone(preds: seq<nat>, m: nat, n: nat, q: nat)
    requires m <= n <= |preds|
    ensures Cnt(preds, m, q) <= Cnt(preds, n, q)
  {
    if m < n {
      CntMonotone(preds, m, n - 1, q);
    }
  }

  /** The histogram of the predictions. */
  method Histogram(preds: seq<nat>, threshold: nat) returns (cnt: seq<nat>)
    requires |preds| <= threshold < 0x1_0000_0000 && forall i | 0 <= i < |preds| :: preds[i] < threshold
    ensures |cnt| == threshold && forall q | 0 <= q < threshold :: cnt[q] == Cnt(preds, |preds|, q)
  {
    cnt := seq(threshold, _ => 0);
    for e := 0 to |preds|
      invariant |cnt| == threshold && forall q | 0 <= q < threshold :: cnt[q] == Cnt(preds, e, q)
    {
      cnt := cnt[preds[e] := Wrap(cnt[preds[e]] + 1)];
    }
  }

  /** The running totals, one less each, in wrapping arithmetic. */
  method RunningTotals(preds: seq<nat>, cnt0: seq<nat>) returns (cnt: seq<nat>)
    requires |cnt0| > 0 && forall q | 0 <= q < |cnt0| :: cnt0[q] == Cnt(preds, |preds|, q)
    ensures |cnt| == |cnt0| && Counts(preds, 0, cnt)
    ensures forall q | 0 <= q < |cnt| :: cnt[q] == (Cum(preds, |preds|, q) - 1) % 0x1_0000_0000
  {
    CumStep(preds, |preds|, 0);
    var first: int := cnt0[0];
    cnt := cnt0[0 := Wrap(first - 1)];
    for c := 1 to |cnt0|
      invariant |cnt| == |cnt0|
      invariant forall q | 0 <= q < c :: cnt[q] == Wrap(Cum(preds, |preds|, q) - 1)
      invariant forall q | c <= q < |cnt| :: cnt[q] == Cnt(preds, |preds|, q)
    {
      CumStep(preds, |preds|, c);
      WrapAdd(cnt[c], Cum(preds, |preds|, c - 1) - 1);
      cnt := cnt[c := Wrap(cnt[c] + cnt[c - 1])];
    }
  }

  /** The places given out so far: the last Cnt(preds, e, q) of those reserved for prediction `q`. */
  ghost predicate GivenOut(preds: seq<nat>, e: nat, tot: nat, lo: seq<nat>, size: seq<nat>)
    requires e <= |preds|
  {
    && |lo| == |size|
    && forall u {:trigger Opened(u)} | Opened(u) ::
         forall q: nat {:trigger Out(preds, e, tot, lo, size, q)} | q < |lo| :: Out(preds, e, tot, lo, size, q)
  }

  ghost predicate Out(preds: seq<nat>, e: nat, tot: nat, lo: seq<nat>, size: seq<nat>, q: nat)
    requires e <= |preds| && q < |lo| == |size|
  {
    size[q] == Cnt(preds, e, q) && lo[q] + size[q] == tot + Cum(preds, |preds|, q)
  }

  /** The next place for prediction `p` is below those given out for `p`, and reserved for `p`. */
  lemma NextPlace(preds: seq<nat>, e: nat, tot: nat, lo: seq<nat>, size: seq<nat>)
    requires e < |preds| && preds[e] < |lo| && GivenOut(preds, e, tot, lo, size)
    ensures var p := preds[e];
            && Cum(preds, |preds|, p) >= 1 + Cnt(preds, e, p)
            && lo[p] >= tot + 1 && lo[p] <= tot + |preds|
            && Avoids(lo, size, 0, -1, lo[p] - 1)
  {
    assert Opened(0);
    var p, n := preds[e], |preds|;
    assert Out(preds, e, tot, lo, size, p);
    CntMonotone(preds, e + 1, n, p);
    CumStep(preds, n, p);
    forall k | 0 <= k < |lo|
      ensures lo[p] - 1 < lo[k] || lo[k] + size[k] <= lo[p] - 1
    {
      assert Out(preds, e, tot, lo, size, k);
      if k < p {
        CumMonotone(preds, n, k, p - 1);
      } else if p < k {
        CumMonotone(preds, n, p, k - 1);
        CumStep(preds, n, k);
        CntMonotone(preds, e, n, k);
      }
    }
  }

  /** The counters hold, in wrapping arithmetic, the next place for each prediction. */
  ghost predicate Counts(preds: seq<nat>, e: nat, cnt: seq<nat>)
    requires e <= |preds|
  {
    forall u {:trigger Opened(u)} | Opened(u) ::
      forall q: nat {:trigger Count(preds, e, cnt, q)} | q < |cnt| :: Count(preds, e, cnt, q)
  }

  ghost predicate Count(preds: seq<nat>, e: nat, cnt: seq<nat>, q: nat)
    requires e <= |preds| && q < |cnt|
  {
    cnt[q] == Wrap(Cum(preds, |preds|, q) - 1 - Cnt(preds, e, q))
  }

  /** The place for key `e`, which no other key has or gets, and the counters after it is taken. */
  method TakePlace(preds: seq<nat>, e: nat, tot: nat, cnt0: seq<nat>, ghost lo: seq<nat>, ghost size: seq<nat>)
    returns (x: nat, cnt: seq<nat>, ghost lo': seq<nat>, ghost size': seq<nat>)
    requires e < |preds| < 0x1_0000_0000 && preds[e] < |cnt0| == |lo|
    requires GivenOut(preds, e, tot, lo, size) && Counts(preds, e, cnt0)
    ensures tot <= x < tot + |preds| && x + 1 == lo[preds[e]] && Avoids(lo, size, 0, -1, x)
    ensures lo' == lo[preds[e] := x] && size' == size[preds[e] := size[preds[e]] + 1]
    ensures GivenOut(preds, e + 1, tot, lo', size') && |cnt| == |cnt0| && Counts(preds, e + 1, cnt)
  {
    assert Opened(0);
    var p := preds[e];
    NextPlace(preds, e, tot, lo, size);
    assert Count(preds, e, cnt0, p) && Out(preds, e, tot, lo, size, p);
    x := tot + cnt0[p];
    var count: int := cnt0[p];
    cnt := cnt0[p := Wrap(count - 1)];
    forall q: nat {:trigger Count(preds, e + 1, cnt, q)} | q < |cnt|
      ensures Count(preds, e + 1, cnt, q)
    {
      assert Count(preds, e, cnt0, q);
    }
    MoreGivenOut(preds, e, tot, lo, size, x);
    lo', size' := lo[p := x], size[p := size[p] + 1];
  }

  lemma MoreGivenOut(preds: seq<nat>, e: nat, tot: nat, lo: seq<nat>, size: seq<nat>, x: nat)
    requires e < |preds| && preds[e] < |lo| && GivenOut(preds, e, tot, lo, size) && x + 1 == lo[preds[e]]
    ensures GivenOut(preds, e + 1, tot, lo[preds[e] := x], size[preds[e] := size[preds[e]] + 1])
  {
    assert Opened(0);
    var lo', size' := lo[preds[e] := x], size[preds[e] := size[preds[e]] + 1];
    forall q: nat {:trigger Out(preds, e + 1, tot, lo', size', q)} | q < |lo|
      ensures Out(preds, e + 1, tot, lo', size', q)
    {
      assert Out(preds, e, tot, lo, size, q);
    }
  }

  /** Storing `v` at a place of its own. */
  method PutAt(major: array<int>, x: nat, v: int, ghost lo: seq<nat>, ghost size: seq<nat>, ghost p: nat,
               ghost held: multiset<int>, ghost lo': seq<nat>, ghost size': seq<nat>)
    requires Stored(major[..], lo, size, held) && p < |lo| && x + 1 == lo[p] && Avoids(lo, size, 0, -1, x)
    requires x < major.Length && lo' == lo[p := x] && size' == size[p := size[p] + 1]
    modifies major
    ensures Stored(major[..], lo', size', held + multiset{v})
    ensures forall j | 0 <= j < major.Length && j != x :: major[j] == old(major[j])
  {
    ghost var s := major[..];
    Look(s, lo, size, held);
    PiecesWrite(s, lo, size, 0, x, v);
    PiecesGrow(s[x := v], lo, size, lo[p := x], size[p := size[p] + 1], 0, p, v);
    major[x] := v;
    assert major[..] == s[x := v];
  }

  /** Only places from `from` up to `to` differ. */
  ghost predicate SameOutside(s: seq<int>, r: seq<int>, from: nat, to: nat) {
    |s| == |r| && forall j | 0 <= j < |s| && (j < from || to <= j) :: r[j] == s[j]
  }

  /** Key `v` goes to the place its counter gives. */
  method ScatterOne(preds: seq<nat>, e: nat, v: int, major: array<int>, tot: nat, cnt0: seq<nat>,
                    ghost lo0: seq<nat>, ghost size0: seq<nat>, ghost held: multiset<int>, ghost held': multiset<int>,
                    ghost s: seq<int>)
    returns (cnt: seq<nat>, ghost lo: seq<nat>, ghost size: seq<nat>)
    requires e < |preds| < 0x1_0000_0000 && preds[e] < |cnt0| == |lo0| && tot + |preds| <= major.Length
    requires GivenOut(preds, e, tot, lo0, size0) && Counts(preds, e, cnt0) && Stored(major[..], lo0, size0, held)
    requires held' == held + multiset{v} && SameOutside(s, major[..], tot, tot + |preds|)
    modifies major
    ensures |cnt| == |cnt0| == |lo| && GivenOut(preds, e + 1, tot, lo, size) && Counts(preds, e + 1, cnt)
    ensures Stored(major[..], lo, size, held') && SameOutside(s, major[..], tot, tot + |preds|)
  {
    var x: nat;
    x, cnt, lo, size := TakePlace(preds, e, tot, cnt0, lo0, size0);
    PutAt(major, x, v, lo0, size0, preds[e], held, lo, size);
  }

  /** Every key of minor[at..at + |preds|] goes to the place its counter gives. */
  method Scatter(minor: array<int>, at: nat, preds: seq<nat>, cnt0: seq<nat>, major: array<int>, tot: nat)
    requires major != minor && at + |preds| <= minor.Length && tot + |preds| <= major.Length
    requires 0 < |cnt0| < 0x1_0000_0000 && |preds| <= |cnt0| && forall i | 0 <= i < |preds| :: preds[i] < |cnt0|
    requires Counts(preds, 0, cnt0)
    modifies major
    ensures multiset(major[tot..tot + |preds|]) == multiset(minor[at..at + |preds|])
    ensures forall j | 0 <= j < tot || tot + |preds| <= j < major.Length :: major[j] == old(major[j])
  {
    ghost var s, keys := major[..], minor[at..at + |preds|];
    var cnt := cnt0;
    ghost var lo: seq<nat>, size: seq<nat>;
    lo, size := NoneGivenOut(s, preds, tot, |cnt0|);
    for e := 0 to |preds|
      invariant |cnt| == |cnt0| == |lo| && GivenOut(preds, e, tot, lo, size) && Counts(preds, e, cnt)
      invariant Stored(major[..], lo, size, multiset(keys[..e])) && SameOutside(s, major[..], tot, tot + |preds|)
    {
      assert keys[..e + 1] == keys[..e] + [keys[e]];
      cnt, lo, size := ScatterOne(preds, e, minor[at + e], major, tot, cnt, lo, size,
                                  multiset(keys[..e]), multiset(keys[..e + 1]), s);
    }
    assert keys[..|preds|] == keys;
    AllGivenOut(major[..], preds, tot, lo, size, multiset(keys));
  }

  /** At first no place is given out. */
  lemma NoneGivenOut(s: seq<int>, preds: seq<nat>, tot: nat, n: nat) returns (lo: seq<nat>, size: seq<nat>)
    requires tot + |preds| <= |s|
    ensures |lo| == n && GivenOut(preds, 0, tot, lo, size) && Stored(s, lo, size, multiset{})
  {
    lo, size := Reserved(preds, tot, n), seq(n, _ => 0);
    PiecesEmpty(s, lo, size, 0);
  }

  ghost function Reserved(preds: seq<nat>, tot: nat, n: nat): (lo: seq<nat>)
    ensures |lo| == n && forall q | 0 <= q < n :: lo[q] == tot + Cum(preds, |preds|, q)
  {
    seq(n, q requires 0 <= q < n => tot + Cum(preds, |preds|, q))
  }

  /** In the end the places of all predictions follow each other and fill the range. */
  lemma AllGivenOut(s: seq<int>, preds: seq<nat>, tot: nat, lo: seq<nat>, size: seq<nat>, held: multiset<int>)
    requires |lo| > 0 && forall i | 0 <= i < |preds| :: preds[i] < |lo|
    requires GivenOut(preds, |preds|, tot, lo, size) && Stored(s, lo, size, held) && tot + |preds| <= |s|
    ensures held == multiset(s[tot..tot + |preds|])
  {
    assert Opened(0);
    Look(s, lo, size, held);
    var n := |preds|;
    forall k: nat {:trigger Adjoins(lo, size, k, tot + n)} | k < |lo|
      ensures Adjoins(lo, size, k, tot + n)
    {
      assert Out(preds, n, tot, lo, size, k);
      if k + 1 < |lo| {
        assert Out(preds, n, tot, lo, size, k + 1);
        CumStep(preds, n, k + 1);
      } else {
        CumAll(preds, n, k);
      }
    }
    CumStep(preds, n, 0);
    assert Out(preds, n, tot, lo, size, 0);
    PiecesJoin(s, lo, size, 0, tot + n);
  }
}
