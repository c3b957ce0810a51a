/** The sequential parts of the concurrent join: cutting the relations into slices, taking overflow buckets from a
    buffer, the probe loop of one thread, and adding up the results. */
module NpjThreads {
  import opened Gates
  import opened NpjJoin
  import opened NpjInvariant
  import opened NpjSafety
  import opened NpjInsertion
  import opened NpjRuns
  import opened NpjResult

  // ---------------------------------------------------------------- slices

  lemma Shares(n: nat, threads: nat, i: nat)
    requires i < threads
    ensures n / threads * (i + 1) == n / threads * i + n / threads <= n
  {
    assert n == threads * (n / threads) + n % threads;
    LargerProduct(n / threads, i + 1, threads);
  }

  lemma {:induction false} LargerProduct(x: nat, y: nat, z: nat)
    requires y <= z
    ensures x * y <= z * x
    decreases z - y
  {
    if y < z {
      LargerProduct(x, y + 1, z);
    }
  }

  lemma OneMoreSlice(s: seq<Tuple>, slices: seq<seq<Tuple>>, start: nat, size: nat)
    requires start + size <= |s| && Concat(slices) == s[..start]
    ensures Concat(slices + [s[start..start + size]]) == s[..start + size]
  {
    var slice := s[start..start + size];
    assert (slices + [slice])[..|slices|] == slices;
    assert s[..start] + slice == s[..start + size];
  }

  /** The slices are the relation cut into equal shares, the last one with what is left over. */
  ghost predicate IsCut(slices: seq<seq<Tuple>>, s: seq<Tuple>, threads: nat)
    requires threads > 0
  {
    && |slices| == threads && Concat(slices) == s
    && forall i | 0 <= i < threads - 1 :: |slices[i]| == |s| / threads
  }

  /** The first `i` slices have been cut, and `left` tuples are left over. */
  ghost predicate CutUpTo(slices: seq<seq<Tuple>>, s: seq<Tuple>, threads: nat, i: nat, left: int)
    requires 0 < threads && i <= threads
  {
    var share := |s| / threads;
    && |slices| == i && (forall j | 0 <= j < i && j < threads - 1 :: |slices[j]| == share)
    && if i < threads then left == |s| - share * i && share * i <= |s| && Concat(slices) == s[..share * i]
       else Concat(slices) == s
  }

  /** Every thread gets an equal share, the last one also what is left over: together the slices are the relation. */
  method Slices(s: seq<Tuple>, threads: nat) returns (slices: seq<seq<Tuple>>)
    requires threads > 0
    ensures IsCut(slices, s, threads)
  {
    slices := [];
    var left := |s|;
    assert s[..0] == [];
    for i := 0 to threads
      invariant CutUpTo(slices, s, threads, i, left)
    {
      slices := CutSlice(s, threads, i, left, slices);
      left := left - |s| / threads;
    }
  }

  method CutSlice(s: seq<Tuple>, threads: nat, i: nat, left: nat, slices0: seq<seq<Tuple>>)
    returns (slices: seq<seq<Tuple>>)
    requires i < threads && CutUpTo(slices0, s, threads, i, left)
    ensures CutUpTo(slices, s, threads, i + 1, left - |s| / threads)
  {
    var share := |s| / threads;
    Shares(|s|, threads, i);
    var start, size := share * i, if i == threads - 1 then left else share;
    OneMoreSlice(s, slices0, start, size);
    slices := slices0 + [s[start..start + size]];
    assert s[..|s|] == s;
  }

  // ---------------------------------------------------------------- overflow buckets

  /** The buffers of preallocated overflow buckets of one thread. The newest is used up first to last; then another is
      put in front of it. */
  class BucketBuffer {
    const size: nat
    var older: nat
    var count: nat
    ghost var handedOut: set<(nat, nat)>

    ghost predicate Valid()
      reads this
    {
      && size > 0 && count <= size
      && forall p | p in handedOut :: p.1 < size && (p.0 < older || (p.0 == older && p.1 < count))
    }

    constructor (size: nat)
      requires size > 0
      ensures Valid() && handedOut == {} && this.size == size
    {
      this.size := size;
      older, count, handedOut := 0, 0, {};
    }

    /** A bucket, by the number of its buffer and its place there, that has not been handed out before. */
    method GetNewBucket() returns (buffer: nat, place: nat)
      requires Valid()
      modifies this
      ensures Valid() && place < size && (buffer, place) !in old(handedOut)
      ensures handedOut == old(handedOut) + {(buffer, place)}
    {
      if count < size {
        buffer, place := older, count;
        count := count + 1;
      } else {
        older, count := older + 1, 1;
        buffer, place := older, 0;
      }
      handedOut := handedOut + {(buffer, place)};
    }
  }

  // ---------------------------------------------------------------- probing

  /** The chain of every key can be walked, and the tuples with the key in it are those of the relation. */
  ghost predicate Holding(c: Config, mem: map<Ref, Cell>, r: seq<Tuple>) {
    forall key :: Answers(c, mem, r, key)
  }

  ghost predicate Answers(c: Config, mem: map<Ref, Cell>, r: seq<Tuple>, key: int) {
    exists chain :: HoldsKey(c, mem, r, key, chain)
  }

  ghost predicate HoldsKey(c: Config, mem: map<Ref, Cell>, r: seq<Tuple>, key: int, chain: Chain) {
    && Follows(mem, c.index(key), chain)
    && (forall k | 0 <= k < |chain| :: mem[chain[k]].count <= |mem[chain[k]].tuples|)
    && Occ(Flat(mem, chain, Null), key) == Occ(r, key)
  }

  /** When a thread probes, the table holds the whole relation. */
  lemma TableComplete(c: Config, s: State, v: View, g: nat, t: nat)
    requires Inv(c, s, v, g) && t < |s.threads| && s.threads[t].status == Running && s.threads[t].round == c.probe
    ensures Holding(c, s.mem, Concat(c.rs))
  {
    Probing(c, s, v, g, t);
    forall key
      ensures Answers(c, s.mem, Concat(c.rs), key)
    {
      Complete(c, s, v, key);
      ChainFollows(c, s.mem, v.chains[c.index(key)], c.index(key), Done(c, s.threads, c.index(key)));
      assert HoldsKey(c, s.mem, Concat(c.rs), key, v.chains[c.index(key)]);
    }
  }

  lemma ChainFollows(c: Config, mem: map<Ref, Cell>, chain: Chain, h: nat, done: multiset<Tuple>)
    requires ChainOk(c, mem, chain, h, Idle, done)
    ensures Follows(mem, h, chain) && forall k | 0 <= k < |chain| :: mem[chain[k]].count <= |mem[chain[k]].tuples|
  {
    assert Looked(0);
  }

  /** The tuples of one bucket that have the key. */
  method CountBucket(cell: Cell, key: int) returns (matches: nat)
    requires cell.count <= |cell.tuples|
    ensures matches == Occ(cell.tuples[..cell.count], key)
  {
    matches := 0;
    for j := 0 to cell.count
      invariant matches == Occ(cell.tuples[..j], key)
    {
      assert cell.tuples[..j + 1][..j] == cell.tuples[..j];
      if cell.tuples[j].key == key {
        matches := matches + 1;
      }
    }
  }

  /** One key is looked up in all buckets of its chain. */
  method ProbeOne(c: Config, mem: map<Ref, Cell>, key: int, ghost r: seq<Tuple>) returns (matches: nat)
    requires Holding(c, mem, r)
    ensures matches == Occ(r, key)
  {
    assert Answers(c, mem, r, key);
    ghost var chain :| HoldsKey(c, mem, r, key, chain);
    ghost var k: nat := 0;
    var b := Head(c.index(key));
    matches := CountBucket(mem[b], key);
    OneMoreCounted(mem, chain, 0, key);
    while mem[b].next.To?
      invariant k < |chain| && b == chain[k] && matches == Occ(Flat(mem, chain[..k + 1], Null), key)
      decreases |chain| - k
    {
      assert mem[chain[k]].next == NextOf(chain, k);
      b := mem[b].next.ref;
      k := k + 1;
      var more := CountBucket(mem[b], key);
      OneMoreCounted(mem, chain, k, key);
      matches := matches + more;
    }
    assert mem[chain[k]].next == NextOf(chain, k);
    assert chain[..k + 1] == chain;
  }

  /** A slice is probed against the complete table. */
  method ProbeSlice(c: Config, mem: map<Ref, Cell>, s: seq<Tuple>, ghost r: seq<Tuple>) returns (matches: nat)
    requires Holding(c, mem, r)
    ensures matches == Joined(r, s, |s|) == |JoiningPairs(r, s)|
  {
    matches := 0;
    for i := 0 to |s|
      invariant matches == Joined(r, s, i)
    {
      var found := ProbeOne(c, mem, s[i].key, r);
      matches := matches + found;
    }
    JoinedPairs(r, s, |s|);
  }

  /** The results of the finished threads, added up. */
  method AddResults(c: Config, s: State, ghost v: View, ghost g: nat) returns (result: nat)
    requires Inv(c, s, v, g) && Finished(c, s)
    ensures result == |JoiningPairs(Concat(c.rs), Concat(c.ss))|
  {
    result := 0;
    for i := 0 to |s.threads|
      invariant result == Total(s.threads, i)
    {
      result := result + s.threads[i].matches;
    }
    Result(c, s, v, g);
  }

  /** The join of two relations cut into slices, for every number of threads and every interleaving: no run accesses
      what is not there, and when all threads have finished, their matches add up to the number of joining pairs. */
  lemma JoinIsCorrect(c: Config, r: seq<Tuple>, s: seq<Tuple>, states: seq<State>, events: seq<Event>)
    requires c.Valid() && IsCut(c.rs, r, |c.rs|) && IsCut(c.ss, s, |c.ss|) && IsRun(c, states, events)
    ensures forall i | 0 <= i < |events| :: IsSafe(c, states[i], events[i])
    ensures
      var last := states[|events|];
      Finished(c, last) ==> Total(last.threads, |last.threads|) == |JoiningPairs(r, s)|
  {
    var v, g := RunKeeps(c, states, events);
    if Finished(c, states[|events|]) {
      Result(c, states[|events|], v, g);
    }
  }
}
