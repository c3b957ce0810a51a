/** The probe for tables with one tuple in each bucket: it compares the slot of every bucket without looking at the
    count, and so takes an empty bucket for one that holds the key 0. */
module NpjSingle {
  import opened Gates
  import opened NpjJoin
  import opened NpjInvariant
  import opened NpjSafety
  import opened NpjInsertion
  import opened NpjRuns
  import opened NpjResult
  import opened NpjThreads

  /** No tuple of the relation has the bucket of this key. */
  ghost predicate NoneAtHome(c: Config, r: seq<Tuple>, key: int) {
    forall x | x in r :: c.index(x.key) != c.index(key)
  }

  /** One slot in each bucket, and used, unless the chain is a single bucket as it was allocated. */
  ghost predicate OnePerBucket(mem: map<Ref, Cell>, chain: Chain) {
    forall k | 0 <= k < |chain| && chain[k] in mem ::
      && mem[chain[k]].count <= |mem[chain[k]].tuples| == 1
      && (mem[chain[k]].count == 0 ==> k == 0 && |chain| == 1 && mem[chain[k]].tuples[0].key == 0)
  }

  /** The chain of the key, which is empty exactly if nothing of the relation belongs there. */
  ghost predicate HoldsSingly(c: Config, mem: map<Ref, Cell>, r: seq<Tuple>, key: int, chain: Chain) {
    && HoldsKey(c, mem, r, key, chain) && OnePerBucket(mem, chain)
    && (mem[chain[0]].count == 0 <==> NoneAtHome(c, r, key))
  }

  ghost predicate AnswersSingly(c: Config, mem: map<Ref, Cell>, r: seq<Tuple>, key: int) {
    exists chain :: HoldsSingly(c, mem, r, key, chain)
  }

  /** The table holds the relation, one tuple in each bucket. */
  ghost predicate HoldingSingly(c: Config, mem: map<Ref, Cell>, r: seq<Tuple>) {
    forall key :: AnswersSingly(c, mem, r, key)
  }

  /** When a thread probes a table with one tuple in each bucket, it holds the whole relation. */
  lemma SinglyComplete(c: Config, s: State, v: View, g: nat, t: nat)
    requires Inv(c, s, v, g) && t < |s.threads| && s.threads[t].status == Running && s.threads[t].round == c.probe
    requires c.capacity == 1
    ensures HoldingSingly(c, s.mem, Concat(c.rs))
  {
    Probing(c, s, v, g, t);
    forall key
      ensures AnswersSingly(c, s.mem, Concat(c.rs), key)
    {
      Complete(c, s, v, key);
      var h := c.index(key);
      var chain, done := v.chains[h], Done(c, s.threads, h);
      ChainFollows(c, s.mem, chain, h, done);
      OneSlotEach(c, s.mem, chain, h, done);
      AllDone(c, s.threads, h, |s.threads|);
      assert Parts(c, s.threads, h)[..|s.threads|] == Parts(c, s.threads, h) && c.rs[..|c.rs|] == c.rs;
      EmptyChain(c, s.mem, chain, key, Concat(c.rs), done);
      assert HoldsSingly(c, s.mem, Concat(c.rs), key, chain);
    }
  }

  /** Only the first bucket of a chain may be empty, and then it is the only one and as it was allocated. */
  lemma OneSlotEach(c: Config, mem: map<Ref, Cell>, chain: Chain, h: nat, done: multiset<Tuple>)
    requires c.capacity == 1 && ChainOk(c, mem, chain, h, Idle, done)
    ensures OnePerBucket(mem, chain)
  {
    assert Looked(0);
    forall k | 0 <= k < |chain| && chain[k] in mem
      ensures mem[chain[k]].count <= |mem[chain[k]].tuples| == 1
      ensures mem[chain[k]].count == 0 ==> k == 0 && |chain| == 1 && mem[chain[k]].tuples[0].key == 0
    {
      InChain(c, mem, chain, k, h, done);
      assert At(mem, chain[k]) == mem[chain[k]];
    }
  }

  /** The chain is empty exactly if no tuple belongs to it. */
  lemma EmptyChain(c: Config, mem: map<Ref, Cell>, chain: Chain, key: int, r: seq<Tuple>, done: multiset<Tuple>)
    requires ChainOk(c, mem, chain, c.index(key), Idle, done) && OnePerBucket(mem, chain)
    requires done == multiset(Belonging(c, c.index(key), r))
    ensures mem[chain[0]].count == 0 <==> NoneAtHome(c, r, key)
  {
    assert Looked(0);
    var flat, cell := Flat(mem, chain, Null), mem[chain[0]];
    assert flat == cell.tuples[..cell.count] + Flat(mem, chain[1..], Null);
    if cell.count == 0 {
      assert flat == [];
      forall x | x in r
        ensures c.index(x.key) != c.index(key)
      {
        BelongingOne(c, c.index(key), r, x);
      }
    } else {
      var x := flat[0];
      BelongingOne(c, c.index(key), r, x);
      assert x in multiset(flat);
    }
  }

  /** The comparison finds a match that is none. */
  ghost predicate FalseMatch(c: Config, r: seq<Tuple>, key: int) {
    key == 0 && NoneAtHome(c, r, key)
  }

  /** The only slot of a bucket is compared. */
  method CompareFirst(cell: Cell, key: int) returns (matches: nat)
    requires cell.count <= |cell.tuples| == 1 && (cell.count == 0 ==> cell.tuples[0].key == 0)
    ensures matches == Occ(cell.tuples[..cell.count], key) + if cell.count == 0 && key == 0 then 1 else 0
  {
    matches := if cell.tuples[0].key == key then 1 else 0;
    ghost var used := cell.tuples[..cell.count];
    if cell.count == 1 {
      assert used[..0] == [] && used[0] == cell.tuples[0];
    }
  }

  /** One key is looked up: its tuples are counted, and one more exactly if the match is false. */
  method ProbeOneFirst(c: Config, mem: map<Ref, Cell>, key: int, ghost r: seq<Tuple>) returns (matches: nat)
    requires HoldingSingly(c, mem, r)
    ensures matches == Occ(r, key) + if FalseMatch(c, r, key) then 1 else 0
    ensures FalseMatch(c, r, key) <==> key == 0 && At(mem, Head(c.index(key))).count == 0
  {
    assert AnswersSingly(c, mem, r, key);
    ghost var chain :| HoldsSingly(c, mem, r, key, chain);
    ghost var k: nat, extra: nat := 0, if FalseMatch(c, r, key) then 1 else 0;
    var b := Head(c.index(key));
    matches := CompareFirst(mem[b], key);
    OneMoreCounted(mem, chain, 0, key);
    while mem[b].next.To?
      invariant k < |chain| && b == chain[k] && matches == Occ(Flat(mem, chain[..k + 1], Null), key) + extra
      decreases |chain| - k
    {
      assert mem[chain[k]].next == NextOf(chain, k);
      b := mem[b].next.ref;
      k := k + 1;
      var more := CompareFirst(mem[b], key);
      OneMoreCounted(mem, chain, k, key);
      matches := matches + more;
    }
    assert mem[chain[k]].next == NextOf(chain, k);
    assert chain[..k + 1] == chain;
  }

  /** How many of the first `n` keys of the slice have a false match. */
  ghost function Falses(c: Config, r: seq<Tuple>, s: seq<Tuple>, n: nat): nat
    requires n <= |s|
  {
    if n == 0 then 0 else Falses(c, r, s, n - 1) + if FalseMatch(c, r, s[n - 1].key) then 1 else 0
  }

  /** A slice is probed: the joining pairs are counted, and the false matches, exactly if there are any. */
  method ProbeSliceFirst(c: Config, mem: map<Ref, Cell>, s: seq<Tuple>, ghost r: seq<Tuple>) returns (matches: nat)
    requires HoldingSingly(c, mem, r)
    ensures matches == |JoiningPairs(r, s)| + Falses(c, r, s, |s|)
    ensures matches == |JoiningPairs(r, s)| <==> forall j | 0 <= j < |s| :: !FalseMatch(c, r, s[j].key)
  {
    matches := 0;
    for i := 0 to |s|
      invariant matches == Joined(r, s, i) + Falses(c, r, s, i)
      invariant Falses(c, r, s, i) == 0 <==> forall j | 0 <= j < i :: !FalseMatch(c, r, s[j].key)
    {
      var found := ProbeOneFirst(c, mem, s[i].key, r);
      matches := matches + found;
    }
    JoinedPairs(r, s, |s|);
  }

  /** A table with two buckets that holds one tuple: the key 0 is at home in the empty bucket. */
  method CountsNothing() returns (matches: nat)
    ensures matches == 1 && JoiningPairs([Tuple(1, 7)], [Tuple(0, 0)]) == {}
  {
    var c := Config([[Tuple(1, 7)]], [[Tuple(0, 0)]], 2, 1, key => if key % 2 == 0 then 0 else 1, 1, 2);
    var mem := map[Head(0) := Cell(0, Null, [Tuple(0, 0)]), Head(1) := Cell(1, Null, [Tuple(1, 7)])];
    TwoBuckets(c, mem);
    ghost var r := [Tuple(1, 7)];
    assert NoneAtHome(c, r, 0);
    assert Falses(c, r, [Tuple(0, 0)], 1) == Falses(c, r, [Tuple(0, 0)], 0) + 1;
    matches := ProbeSliceFirst(c, mem, [Tuple(0, 0)], [Tuple(1, 7)]);
  }

  lemma TwoBuckets(c: Config, mem: map<Ref, Cell>)
    requires forall key :: c.index(key) == if key % 2 == 0 then 0 else 1
    requires mem == map[Head(0) := Cell(0, Null, [Tuple(0, 0)]), Head(1) := Cell(1, Null, [Tuple(1, 7)])]
    ensures HoldingSingly(c, mem, [Tuple(1, 7)])
  {
    var r := [Tuple(1, 7)];
    assert r[..0] == [];
    forall key
      ensures AnswersSingly(c, mem, r, key)
    {
      var chain := [Head(c.index(key))];
      assert chain[1..] == [] && mem[chain[0]].tuples[..mem[chain[0]].count] == if key % 2 == 0 then [] else r;
      assert Flat(mem, chain, Null) == if key % 2 == 0 then [] else r;
      assert Tuple(1, 7) in r;
      assert HoldsSingly(c, mem, r, key, chain);
    }
  }
}
