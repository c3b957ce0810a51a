/** Probing a sorted relation through a learned index: a prediction with an error bound gives a window, a branchless
    binary search finds a position in it, and from there the first occurrence is sought backwards. Where the code would
    read outside the relation, the model stops and says so. */
module RmiProbe {
  import opened Gates
  import opened SortSpec
  import opened NpjJoin
  import opened NpjInsertion
  import opened NpjResult

  /** An occurrence of the key is in the window or directly before it. */
  ghost predicate Covered(keys: seq<int>, key: int, start: nat, end: nat) {
    exists i :: 0 <= i < |keys| && start <= i + 1 && i <= end && keys[i] == key
  }

  /** `lower` is the last position of the window whose key is not above, or the first one if all are above. */
  ghost predicate LastNotAbove(keys: seq<int>, key: int, start: nat, end: nat, lower: int)
    requires end < |keys|
  {
    && start <= lower <= end && (lower == start || keys[lower] <= key)
    && forall i | lower < i <= end :: keys[i] > key
  }

  /** Halving as the language does it, towards zero. */
  function Half(n: int): int {
    if n >= 0 then n / 2 else -(-n / 2)
  }

  /** The least position within the relation that the search probes while it goes left, in a window of `n` positions of
      which the first `d` lie before the relation; `best` if the next one lies there, too, or there is none. */
  function Least(d: nat, n: nat, best: int): (p: int)
    ensures p == best || 0 <= p < n - d
    ensures best >= 0 && best >= n / 2 - d ==> 0 <= p <= best
    decreases n
  {
    if n / 2 == 0 || n / 2 < d then best else Least(d, n - n / 2, n / 2 - d)
  }

  /** A window ends within the relation. It may start before it, a position below zero being one that has wrapped
      around, and it may start after it. */
  predicate IsWindow(keys: seq<int>, start: int, end: nat) {
    end < |keys| && (start <= end || end == |keys| - 1)
  }

  /** The first position of the window within the relation. */
  function First(start: int): (first: nat) {
    if start < 0 then 0 else start
  }

  /** From a start before the relation the search comes to a key that is not above. */
  predicate Enters(keys: seq<int>, key: int, start: int, end: nat)
    requires IsWindow(keys, start, end) && start < 0
  {
    var p := Least(-start, end + 1 - start, -1);
    p >= 0 && keys[p] <= key
  }

  /** Within the relation, the search has the `n` positions from `lower` on left. */
  ghost predicate Narrowed(keys: seq<int>, key: int, start: int, end: nat, lower: int, n: int)
    requires end < |keys|
  {
    && 1 <= n && First(start) <= lower && lower + n <= end + 1
    && (keys[lower] <= key || lower == start)
    && forall i | lower + n <= i <= end :: keys[i] > key
  }

  /** Going left only, the search has the `n` positions from the start on left, and has probed `best` last. */
  ghost predicate WentLeft(keys: seq<int>, key: int, start: int, end: nat, n: int, best: int)
    requires start < 0 && end < |keys|
  {
    && 1 <= n && start + n <= end + 1
    && (forall i | 0 <= i && start + n <= i <= end :: keys[i] > key)
    && (best == -1 || (0 <= best <= end && keys[best] > key))
    && Least(-start, end + 1 - start, -1) == Least(-start, n, best)
  }

  /** What holds whenever the search halves the window. */
  ghost predicate Searching(keys: seq<int>, key: int, start: int, end: nat, lower: int, n: int, best: int)
    requires IsWindow(keys, start, end)
  {
    forall u {:trigger Looked(u)} | Looked(u) ::
      if start > end then lower == start && n == end - start + 1
      else if lower >= 0 then Narrowed(keys, key, start, end, lower, n) && (start < 0 ==> Enters(keys, key, start, end))
      else lower == start && WentLeft(keys, key, start, end, n, best)
  }

  /** How the search ends: within the relation if the window starts there; if the window starts before, exactly if the
      search enters the relation, or where it started. */
  ghost predicate Ended(keys: seq<int>, key: int, start: int, end: nat, inside: bool, lower: int)
    requires IsWindow(keys, start, end)
  {
    forall u {:trigger Looked(u)} | Looked(u) ::
      if start > end then (inside ==> lower == start) && (start == |keys| ==> inside)
      else if start >= 0 || Enters(keys, key, start, end) then
        inside && LastNotAbove(keys, key, First(start), end, lower)
      else inside ==> lower == start
  }

  /** A probe outside the relation comes before it or after it, as the window does. */
  lemma Leaves(keys: seq<int>, key: int, start: int, end: nat, lower: int, n: int, best: int)
    requires IsWindow(keys, start, end) && Searching(keys, key, start, end, lower, n, best) && Half(n) != 0
    ensures start > end ==> !(0 <= lower + Half(n) < |keys|)
    ensures !(0 <= lower + Half(n) < |keys|) ==> Ended(keys, key, start, end, false, lower)
  {
    assert Looked(0);
  }

  lemma Stops(keys: seq<int>, key: int, start: int, end: nat, lower: int, n: int, best: int)
    requires IsWindow(keys, start, end) && Searching(keys, key, start, end, lower, n, best) && Half(n) == 0
    ensures Ended(keys, key, start, end, true, lower)
  {
    assert Looked(0);
  }

  /** The first probe that does not go left enters the relation. */
  lemma EntersHere(keys: seq<int>, key: int, start: int, end: nat, n: int, best: int)
    requires Ascending(keys) && IsWindow(keys, start, end) && start < 0 && n / 2 != 0 && start + n / 2 >= 0
    requires WentLeft(keys, key, start, end, n, best) && keys[start + n / 2] <= key
    ensures Enters(keys, key, start, end)
  {
    assert Least(-start, n, best) == Least(-start, n - n / 2, start + n / 2);
  }

  /** One halving, by a probe within the relation. */
  lemma Halved(keys: seq<int>, key: int, start: int, end: nat, lower: int, n: int, best: int, lower': int)
    requires Ascending(keys) && IsWindow(keys, start, end) && start <= end
    requires Searching(keys, key, start, end, lower, n, best) && Half(n) != 0 && 0 <= lower + Half(n) < |keys|
    requires lower' == if keys[lower + Half(n)] <= key then lower + Half(n) else lower
    ensures Searching(keys, key, start, end, lower', n - Half(n), lower + Half(n))
  {
    assert Looked(0);
    if lower < 0 && lower' >= 0 {
      EntersHere(keys, key, start, end, n, best);
    }
  }

  /** The branchless search. The window halves without a test for equality. */
  method SearchWindow(keys: seq<int>, key: int, start: int, end: nat) returns (inside: bool, lower: int)
    requires Ascending(keys) && IsWindow(keys, start, end)
    ensures Ended(keys, key, start, end, inside, lower)
  {
    var n := end - start + 1;
    lower := start;
    ghost var best := -1;
    while Half(n) != 0
      invariant Searching(keys, key, start, end, lower, n, best)
      decreases if n >= 0 then n else -n
    {
      var middle := lower + Half(n);
      Leaves(keys, key, start, end, lower, n, best);
      if !(0 <= middle < |keys|) {
        return false, lower;
      }
      ghost var before := lower;
      lower := if keys[middle] <= key then middle else lower;
      Halved(keys, key, start, end, before, n, best, lower);
      n, best := n - Half(n), middle;
    }
    Stops(keys, key, start, end, lower, n, best);
    inside := true;
  }

  /** What the search comes to: the first occurrence of the key, exactly if an occurrence is in the window or directly
      before it. Only if the window starts right after the relation is there no key to compare. */
  ghost predicate Reached(keys: seq<int>, key: int, start: nat, end: nat, lower: int)
    requires end < |keys|
  {
    && 0 <= lower <= |keys|
    && (lower < |keys| && keys[lower] == key <==> Covered(keys, key, start, end))
    && (lower < |keys| && keys[lower] == key ==> forall i | 0 <= i < lower :: keys[i] < key)
    && (lower < |keys| && keys[lower] != key ==> LastNotAbove(keys, key, start, end, lower))
    && (lower == |keys| ==> start == |keys|)
  }

  /** The search and the way back to the first occurrence, and exactly when they stay within the relation: the window
      starts there or right after it, or the search enters it. The result is then that of the part of the window that
      is within the relation. */
  method BranchlessBinarySearch(keys: seq<int>, key: int, start: int, end: nat) returns (inside: bool, lower: int)
    requires Ascending(keys) && IsWindow(keys, start, end)
    ensures inside <==> if start < 0 then Enters(keys, key, start, end) else start <= |keys|
    ensures inside ==> Reached(keys, key, First(start), end, lower)
  {
    inside, lower := SearchWindow(keys, key, start, end);
    assert Looked(0);
    if !inside {
      return;
    }
    ghost var at := lower;
    while lower != 0
      invariant lower == at || 0 <= lower < at <= |keys|
      invariant forall i | lower <= i < at :: 0 <= i < |keys| && keys[i] == key
      decreases lower
    {
      if !(0 <= lower - 1 < |keys|) {
        return false, lower;
      }
      if keys[lower - 1] != key {
        break;
      }
      lower := lower - 1;
    }
    if start <= end {
      WayBack(keys, key, First(start), end, at, lower);
    } else {
      WayBackFromEnd(keys, key, end, lower);
    }
  }

  lemma WayBack(keys: seq<int>, key: int, start: nat, end: nat, at: nat, lower: nat)
    requires Ascending(keys) && start <= end < |keys| && LastNotAbove(keys, key, start, end, at)
    requires lower <= at && (forall i | lower <= i < at :: keys[i] == key) && (lower > 0 ==> keys[lower - 1] != key)
    ensures Reached(keys, key, start, end, lower)
  {
    if keys[lower] == key {
      var i := if lower < start then start - 1 else lower;
      assert keys[i] == key;
    }
    if Covered(keys, key, start, end) {
      var i :| 0 <= i < |keys| && start <= i + 1 && i <= end && keys[i] == key;
      if i < start {
        assert i == start - 1;
      }
    }
  }

  lemma WayBackFromEnd(keys: seq<int>, key: int, end: nat, lower: nat)
    requires Ascending(keys) && end == |keys| - 1 && lower <= |keys|
    requires (forall i | lower <= i < |keys| :: keys[i] == key) && (lower > 0 ==> keys[lower - 1] != key)
    ensures Reached(keys, key, |keys|, end, lower)
  {
    if lower < |keys| {
      assert keys[end] == key;
    }
  }

  /** What is known of the index: for every key it has a guess and a bound for its error. */
  datatype Index = Index(lookup: int -> (nat, nat))
  {
    /** Where the window starts. The clamping of a start below zero has no effect, since the start is unsigned. */
    function Start(key: int): int {
      lookup(key).0 - lookup(key).1
    }

    function End(key: int, n: nat): (end: nat)
      requires n > 0
      ensures end < n && (Start(key) <= end || end == n - 1)
    {
      var end := lookup(key).0 + lookup(key).1;
      if end > n - 1 then n - 1 else end
    }

    /** The search for the key stays within the relation: guess minus error lies there, or the search enters it from
        before, or guess minus error is right after the relation and the last key is the one sought. */
    predicate Safe(keys: seq<int>, key: int) {
      keys != [] &&
      var (guess, err) := lookup(key);
      if err > guess then Enters(keys, key, guess - err, if guess + err < |keys| then guess + err else |keys| - 1)
      else guess - err < |keys| || (guess - err == |keys| && keys[|keys| - 1] == key)
    }

    /** The run of the key that is counted ends with the relation. */
    ghost predicate ReadsBeyond(keys: seq<int>, key: int) {
      Covers(keys, key) && keys[|keys| - 1] == key
    }

    /** An occurrence of the key is not further from the guess than the error, or directly before. */
    ghost predicate Covers(keys: seq<int>, key: int) {
      var (guess, err) := lookup(key);
      exists i :: 0 <= i < |keys| && guess - err <= i + 1 && i <= guess + err && keys[i] == key
    }

    /** Guess minus error lies within the relation, and if the key occurs, an occurrence is not further from the guess
        than the error. */
    ghost predicate Keeps(keys: seq<int>, key: int) {
      var (guess, err) := lookup(key);
      && 0 <= guess - err < |keys|
      && (key in keys ==> exists i :: 0 <= i < |keys| && guess - err <= i <= guess + err && keys[i] == key)
    }

    /** The key occurs, but only further from the guess than the error and not directly before. */
    ghost predicate Misses(keys: seq<int>, key: int) {
      var (guess, err) := lookup(key);
      key in keys && forall i | 0 <= i < |keys| && keys[i] == key :: i + 1 < guess - err || guess + err < i
    }

    /** What the search does with the window from Start to End is what the guess and the error promise. */
    lemma WindowIs(keys: seq<int>, key: int)
      requires keys != []
      ensures Covers(keys, key) <==> Covered(keys, key, First(Start(key)), End(key, |keys|))
      ensures Safe(keys, key) <==>
              var start, end := Start(key), End(key, |keys|);
              if start < 0 then Enters(keys, key, start, end)
              else start < |keys| || (start == |keys| && keys[|keys| - 1] == key)
    {
    }
  }

  function Keys(r: seq<Tuple>): (keys: seq<int>)
    ensures |keys| == |r| && forall i | 0 <= i < |r| :: keys[i] == r[i].key
  {
    if r == [] then [] else Keys(r[..|r| - 1]) + [r[|r| - 1].key]
  }

  /** From the first occurrence on, all tuples with the key follow each other. The key after the last one is read before
      the bound is tested; it lies beyond the relation exactly if the last key is the one counted. */
  method CountRun(keys: seq<int>, key: int, first: nat, ghost r: seq<Tuple>) returns (matches: nat, beyond: bool)
    requires Ascending(keys) && keys == Keys(r) && first < |keys| && keys[first] == key
    requires forall i | 0 <= i < first :: keys[i] < key
    ensures matches == Occ(r, key)
    ensures beyond <==> keys[|keys| - 1] == key
  {
    var k := first;
    matches, beyond := 0, false;
    NoneBelow(r, key, first);
    while true
      invariant first <= k <= |keys| && matches == Occ(r[..k], key)
      invariant k > first ==> keys[k - 1] == key
      decreases |keys| - k
    {
      if k == |keys| {
        beyond := true;
        break;
      }
      if keys[k] != key {
        break;
      }
      assert r[..k + 1][..k] == r[..k];
      matches, k := matches + 1, k + 1;
    }
    NoneAbove(r, key, k, |r|);
    assert r[..|r|] == r;
  }

  lemma {:induction false} NoneBelow(r: seq<Tuple>, key: int, k: nat)
    requires k <= |r| && forall i | 0 <= i < k :: r[i].key != key
    ensures Occ(r[..k], key) == 0
  {
    if k > 0 {
      assert r[..k][..k - 1] == r[..k - 1];
      NoneBelow(r, key, k - 1);
    }
  }

  lemma {:induction false} NoneAbove(r: seq<Tuple>, key: int, k: nat, n: nat)
    requires k <= n <= |r| && forall i | k <= i < n :: r[i].key != key
    ensures Occ(r[..n], key) == Occ(r[..k], key)
  {
    if k < n {
      assert r[..n][..n - 1] == r[..n - 1];
      NoneAbove(r, key, k, n - 1);
    }
  }

  lemma {:induction false} Occurs(r: seq<Tuple>, key: int, i: nat)
    requires i < |r| && r[i].key == key
    ensures Occ(r, key) > 0
  {
    if i < |r| - 1 {
      Occurs(r[..|r| - 1], key, i);
    }
  }

  /** One key is probed: all its tuples are counted if its window covers one of them, and none otherwise. */
  method ProbeKey(keys: seq<int>, key: int, index: Index, ghost r: seq<Tuple>)
    returns (inside: bool, matches: nat, beyond: bool)
    requires Ascending(keys) && keys == Keys(r)
    ensures inside <==> index.Safe(keys, key)
    ensures inside ==> matches == if index.Covers(keys, key) then Occ(r, key) else 0
    ensures inside ==> (beyond <==> index.ReadsBeyond(keys, key))
  {
    matches, beyond := 0, false;
    if keys == [] {
      // Wherever the search ends, it compares a key there.
      return false, matches, beyond;
    }
    index.WindowIs(keys, key);
    var lower;
    inside, lower := BranchlessBinarySearch(keys, key, index.Start(key), index.End(key, |keys|));
    if !inside || lower == |keys| {
      return false, matches, beyond;
    }
    if keys[lower] == key {
      matches, beyond := CountRun(keys, key, lower, r);
    }
  }

  /** The window of the probe key covers an occurrence, if there is any. */
  ghost predicate Served(keys: seq<int>, key: int, index: Index) {
    key in keys ==> index.Covers(keys, key)
  }

  /** What the first `n` probes come to. */
  ghost predicate Probed(keys: seq<int>, s: seq<Tuple>, n: nat, index: Index, r: seq<Tuple>, matches: nat, beyond: bool)
    requires n <= |s|
  {
    forall u {:trigger Looked(u)} | Looked(u) ::
      && matches <= Joined(r, s, n)
      && (matches == Joined(r, s, n) <==> forall j | 0 <= j < n :: Served(keys, s[j].key, index))
      && (beyond <==> exists j :: 0 <= j < n && index.ReadsBeyond(keys, s[j].key))
  }

  lemma ProbedMore(keys: seq<int>, s: seq<Tuple>, n: nat, index: Index, r: seq<Tuple>, matches: nat, beyond: bool,
                   found: nat, last: bool)
    requires n < |s| && keys == Keys(r) && Probed(keys, s, n, index, r, matches, beyond)
    requires found == if index.Covers(keys, s[n].key) then Occ(r, s[n].key) else 0
    requires last <==> index.ReadsBeyond(keys, s[n].key)
    ensures Probed(keys, s, n + 1, index, r, matches + found, beyond || last)
  {
    assert Looked(0);
    ServedOrMissed(keys, s[n].key, index, r);
    assert Joined(r, s, n + 1) == Joined(r, s, n) + Occ(r, s[n].key);
  }

  /** The search and the comparison stay within the relation exactly if they do for every probe key. Then the matches
      found are the number of joining pairs exactly if the window of every probe key covers an occurrence of it wherever
      there is one, and too few otherwise; and the count reads a key beyond the relation exactly if it counts the last
      one. */
  method ProbeSlice(keys: seq<int>, s: seq<Tuple>, index: Index, ghost r: seq<Tuple>)
    returns (inside: bool, matches: nat, beyond: bool)
    requires Ascending(keys) && keys == Keys(r)
    ensures inside <==> forall j | 0 <= j < |s| :: index.Safe(keys, s[j].key)
    ensures inside ==> matches <= |JoiningPairs(r, s)|
    ensures inside ==> (matches == |JoiningPairs(r, s)| <==> forall j | 0 <= j < |s| :: Served(keys, s[j].key, index))
    ensures inside ==> (beyond <==> exists j :: 0 <= j < |s| && index.ReadsBeyond(keys, s[j].key))
    ensures (forall j | 0 <= j < |s| :: index.Keeps(keys, s[j].key)) ==> inside && matches == |JoiningPairs(r, s)|
    ensures inside && (exists j :: 0 <= j < |s| && index.Misses(keys, s[j].key)) ==> matches < |JoiningPairs(r, s)|
  {
    KeptOrMissed(keys, s, index);
    inside, matches, beyond := true, 0, false;
    for i := 0 to |s|
      invariant inside && (forall j | 0 <= j < i :: index.Safe(keys, s[j].key))
      invariant Probed(keys, s, i, index, r, matches, beyond)
    {
      var found, last;
      inside, found, last := ProbeKey(keys, s[i].key, index, r);
      if !inside {
        return;
      }
      ProbedMore(keys, s, i, index, r, matches, beyond, found, last);
      matches, beyond := matches + found, beyond || last;
    }
    assert Looked(0);
    JoinedPairs(r, s, |s|);
  }

  lemma KeptOrMissed(keys: seq<int>, s: seq<Tuple>, index: Index)
    ensures forall j | 0 <= j < |s| && index.Keeps(keys, s[j].key) ::
              index.Safe(keys, s[j].key) && Served(keys, s[j].key, index)
    ensures forall j | 0 <= j < |s| :: index.Misses(keys, s[j].key) <==> !Served(keys, s[j].key, index)
  {
    forall j | 0 <= j < |s| && !Served(keys, s[j].key, index)
      ensures index.Misses(keys, s[j].key)
    {
    }
  }

  lemma ServedOrMissed(keys: seq<int>, key: int, index: Index, r: seq<Tuple>)
    requires keys == Keys(r)
    ensures Served(keys, key, index) <==> (index.Covers(keys, key) || Occ(r, key) == 0)
  {
    if key in keys {
      var i :| 0 <= i < |keys| && keys[i] == key;
      Occurs(r, key, i);
    } else {
      NoneBelow(r, key, |r|);
      assert r[..|r|] == r;
    }
  }

  /** A window that stops short of the key misses it. */
  lemma ShortWindowMisses()
    ensures !Served([1, 2, 3], 3, Index(key => (0, 0)))
  {
  }

  /** If the error exceeds the guess, the search for a key below all others leaves the relation. */
  lemma BelowAllLeaves(keys: seq<int>, key: int, index: Index)
    requires Ascending(keys) && (keys != [] ==> key < keys[0]) && index.lookup(key).1 > index.lookup(key).0
    ensures !index.Safe(keys, key)
  {
  }

  /** So does every search with more of its window before the relation than in it. */
  lemma MostlyBeforeLeaves(keys: seq<int>, key: int, index: Index)
    requires index.lookup(key).1 > index.lookup(key).0 + |keys|
    ensures !index.Safe(keys, key)
  {
  }

  /** So may the search for the first key, though its window covers it. */
  lemma FirstKeyLeaves(keys: seq<int>, key: int)
    requires Ascending(keys) && |keys| >= 7 && keys[0] == key < keys[1]
    ensures Index(k => (1, 5)).Covers(keys, key) && !Index(k => (1, 5)).Safe(keys, key)
  {
    assert Least(4, 11, -1) == Least(4, 6, 1) == 1;
  }
}
