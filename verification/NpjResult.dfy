/** What the invariant of the concurrent join means for its runs: one holder for each latch, no tuple lost or stored
    twice, well-filled chains, no probe before all have built, never a deadlock, and the number of joining pairs as the
    result. */
module NpjResult {
  import opened Gates
  import opened NpjJoin
  import opened NpjInvariant
  import opened NpjSafety
  import opened NpjInsertion
  import opened NpjRuns

  // ---------------------------------------------------------------- runs

  datatype Event = Event(t: nat, a: Action)

  /** A run of any interleaving. */
  ghost predicate IsRun(c: Config, states: seq<State>, events: seq<Event>) {
    && |states| == |events| + 1 && states[0] == c.Start()
    && forall i | 0 <= i < |events| :: c.Steps(states[i], events[i].t, events[i].a, states[i + 1])
  }

  /** The step accesses only what is there. */
  ghost predicate IsSafe(c: Config, s: State, e: Event) {
    |s.threads| == |c.rs| == |c.ss| && c.Next(s, e.t, e.a) && c.Accessible(s, e.t, e.a)
  }

  lemma StepKeeps(c: Config, s: State, v: View, g: nat, t: nat, a: Action, s': State) returns (v': View, g': nat)
    requires Inv(c, s, v, g) && c.Steps(s, t, a, s')
    ensures c.Accessible(s, t, a) && Inv(c, s', v', g')
  {
    v', g' := v, g;
    match a
    case Allocate => v' := AllocateKeeps(c, s, v, g, s');
    case Tas => v' := TasKeeps(c, s, v, g, t, s');
    case Load => LoadKeeps(c, s, v, g, t, s');
    case Claim(garbage) => ClaimKeeps(c, s, v, g, t, garbage, s');
    case LinkHead => LinkHeadKeeps(c, s, v, g, t, s');
    case LinkNext => LinkNextKeeps(c, s, v, g, t, s');
    case SetCount => v' := SetCountKeeps(c, s, v, g, t, s');
    case Store => StoreKeeps(c, s, v, g, t, s');
    case Unlock => v' := UnlockKeeps(c, s, v, g, t, s');
    case StartWalk => StartWalkKeeps(c, s, v, g, t, s');
    case Visit => VisitKeeps(c, s, v, g, t, s');
    case Arrive => g' := ArriveKeeps(c, s, v, g, t, s');
    case Wake => WakeKeeps(c, s, v, g, t, s');
  }

  /** Every reachable state keeps the invariant, and no step on the way accesses what is not there. */
  lemma {:induction false} RunKeeps(c: Config, states: seq<State>, events: seq<Event>) returns (v: View, g: nat)
    requires c.Valid() && IsRun(c, states, events)
    ensures Inv(c, states[|events|], v, g)
    ensures forall i | 0 <= i < |events| :: IsSafe(c, states[i], events[i])
    decreases |events|
  {
    if events == [] {
      v, g := View([], []), 0;
      InitKeeps(c, v);
    } else {
      var n := |events| - 1;
      assert c.Steps(states[n], events[n].t, events[n].a, states[n + 1]);
      assert IsRun(c, states[..n + 1], events[..n]) by {
        forall i | 0 <= i < n
          ensures c.Steps(states[..n + 1][i], events[..n][i].t, events[..n][i].a, states[..n + 1][i + 1])
        {
          assert c.Steps(states[i], events[i].t, events[i].a, states[i + 1]);
        }
      }
      v, g := RunKeeps(c, states[..n + 1], events[..n]);
      forall i | 0 <= i < n
        ensures IsSafe(c, states[i], events[i])
      {
        assert IsSafe(c, states[..n + 1][i], events[..n][i]);
      }
      v, g := StepKeeps(c, states[n], v, g, events[n].t, events[n].a, states[n + 1]);
    }
  }

  // ---------------------------------------------------------------- safety

  /** At most one thread holds a latch, and the latch is set exactly while one does. */
  lemma MutualExclusion(c: Config, s: State, v: View, g: nat, t: nat, u: nat)
    requires Inv(c, s, v, g) && t < |s.threads| && u < |s.threads|
    ensures s.threads[t].pc.Owner() && s.threads[u].pc.Owner() && s.threads[t].pc.h == s.threads[u].pc.h ==> t == u
    ensures s.ready ==> |s.latch| == c.heads
    ensures s.ready ==> forall h | 0 <= h < c.heads ::
              s.latch[h] <==> exists i :: 0 <= i < |s.threads| && s.threads[i].pc.Owner() && s.threads[i].pc.h == h
  {
    assert Opened(0);
    if s.threads[t].pc.Owner() {
      Inserting(c, s, v, g, t);
    }
    if s.ready {
      forall h | 0 <= h < c.heads
        ensures s.latch[h] <==> exists i :: 0 <= i < |s.threads| && s.threads[i].pc.Owner() && s.threads[i].pc.h == h
      {
        assert HeadOk(c, s, v, h);
      }
    }
  }

  /** Once a thread probes, all threads have stored their whole slice, and no insertion is under way. */
  lemma NoEarlyProbe(c: Config, s: State, v: View, g: nat, t: nat)
    requires Inv(c, s, v, g) && t < |s.threads| && (s.threads[t].pc.Walking? || s.threads[t].probed > 0)
    ensures forall i | 0 <= i < |s.threads| :: s.threads[i].built == |c.rs[i]| && !s.threads[i].pc.Owner()
  {
    assert Opened(0);
    assert ThreadOk(c, t, s.threads[t]) && Eff(s.threads[t]) == g;
    forall i | 0 <= i < |s.threads|
      ensures s.threads[i].built == |c.rs[i]| && !s.threads[i].pc.Owner()
    {
      assert ThreadOk(c, i, s.threads[i]) && Eff(s.threads[i]) == g;
    }
  }

  // ---------------------------------------------------------------- the shape of a chain

  /** The chain that starts at bucket `h`, found by following the links. */
  ghost predicate Follows(mem: map<Ref, Cell>, h: nat, chain: Chain) {
    && chain != [] && chain[0] == Head(h)
    && forall k | 0 <= k < |chain| :: chain[k] in mem && mem[chain[k]].next == NextOf(chain, k)
  }

  /** There is only one such chain. */
  lemma OneChain(mem: map<Ref, Cell>, h: nat, x: Chain, y: Chain)
    requires Follows(mem, h, x) && Follows(mem, h, y) && |x| <= |y|
    ensures x == y
  {
    forall k | 0 <= k < |x|
      ensures x[k] == y[k]
    {
      SamePlace(mem, h, x, y, k);
    }
    SamePlace(mem, h, x, y, |x| - 1);
    assert NextOf(x, |x| - 1) == NextOf(y, |x| - 1);
  }

  lemma {:induction false} SamePlace(mem: map<Ref, Cell>, h: nat, x: Chain, y: Chain, k: nat)
    requires Follows(mem, h, x) && Follows(mem, h, y) && k < |x| <= |y|
    ensures x[k] == y[k]
  {
    if k > 0 {
      SamePlace(mem, h, x, y, k - 1);
      assert NextOf(x, k - 1) == NextOf(y, k - 1);
    }
  }

  function Ceil(m: nat, b: nat): nat
    requires b > 0
  {
    (m + b - 1) / b
  }

  /** Without an insertion under way on it, a chain of `m` tuples has max(1, ceil(m / capacity)) buckets, all full
      except possibly the first one or the first overflow bucket. */
  lemma ChainShape(c: Config, s: State, v: View, g: nat, h: nat) returns (chain: Chain)
    requires Inv(c, s, v, g) && s.ready && h < c.heads
    requires forall i | 0 <= i < |s.threads| && s.threads[i].pc.Owner() :: s.threads[i].pc.h != h
    ensures Follows(s.mem, h, chain)
    ensures |chain| > 1 ==> s.mem[chain[0]].count == c.capacity
    ensures forall k | 2 <= k < |chain| :: s.mem[chain[k]].count == c.capacity
    ensures
      var m := |Flat(s.mem, chain, Null)|;
      |chain| == if m <= c.capacity then 1 else Ceil(m, c.capacity)
    ensures BuiltWithin(c, s.threads) && multiset(Flat(s.mem, chain, Null)) == Done(c, s.threads, h)
  {
    chain := QuietChain(c, s, v, g, h);
    assert Looked(0);
    ShapedLength(c, s.mem, chain, h);
  }

  /** The chain of a bucket on which no insertion is under way. */
  lemma QuietChain(c: Config, s: State, v: View, g: nat, h: nat) returns (chain: Chain)
    requires Inv(c, s, v, g) && s.ready && h < c.heads
    requires forall i | 0 <= i < |s.threads| && s.threads[i].pc.Owner() :: s.threads[i].pc.h != h
    ensures BuiltWithin(c, s.threads) && ChainOk(c, s.mem, chain, h, Idle, Done(c, s.threads, h))
  {
    assert Opened(0);
    assert HeadOk(c, s, v, h);
    chain := v.chains[h];
  }

  lemma ShapedLength(c: Config, mem: map<Ref, Cell>, chain: Chain, h: nat)
    requires Shaped(c, mem, chain, h, Idle) && c.capacity > 0
    ensures
      var m := |Flat(mem, chain, Null)|;
      |chain| == if m <= c.capacity then 1 else Ceil(m, c.capacity)
  {
    FlatLength(c, mem, chain, h);
    LengthOfChain(c.capacity, |chain|, mem[chain[0]].count, if |chain| > 1 then mem[chain[1]].count else 0);
  }

  lemma {:induction false} FullLength(c: Config, mem: map<Ref, Cell>, chain: Chain)
    requires forall k | 0 <= k < |chain| ::
                 chain[k] in mem && mem[chain[k]].count == |mem[chain[k]].tuples| == c.capacity
    ensures |Flat(mem, chain, Null)| == |chain| * c.capacity
  {
    if chain != [] {
      FullLength(c, mem, chain[1..]);
    }
  }

  lemma FlatLength(c: Config, mem: map<Ref, Cell>, chain: Chain, h: nat)
    requires Shaped(c, mem, chain, h, Idle)
    ensures |Flat(mem, chain, Null)| == mem[chain[0]].count +
              if |chain| == 1 then 0 else mem[chain[1]].count + (|chain| - 2) * c.capacity
  {
    if |chain| > 1 {
      var rest := chain[2..];
      FullRest(c, mem, chain, h);
      assert chain == [chain[0]] + ([chain[1]] + rest);
      FlatCons(mem, chain[0], [chain[1]] + rest, Null);
      FlatCons(mem, chain[1], rest, Null);
    } else {
      assert Flat(mem, chain[1..], Null) == [];
    }
  }

  lemma FullRest(c: Config, mem: map<Ref, Cell>, chain: Chain, h: nat)
    requires Shaped(c, mem, chain, h, Idle) && |chain| > 1
    ensures |Flat(mem, chain[2..], Null)| == (|chain| - 2) * c.capacity
    ensures |Filled(At(mem, chain[0]), false)| == mem[chain[0]].count
    ensures |Filled(At(mem, chain[1]), false)| == mem[chain[1]].count
  {
    var rest := chain[2..];
    forall k | 0 <= k < |rest|
      ensures rest[k] in mem && mem[rest[k]].count == |mem[rest[k]].tuples| == c.capacity
    {
      assert At(mem, chain[k + 2]).count == c.capacity;
    }
    FullLength(c, mem, rest);
    assert At(mem, chain[0]).count <= c.capacity && At(mem, chain[1]).count <= c.capacity;
  }

  lemma LengthOfChain(capacity: nat, n: nat, first: nat, second: nat)
    requires capacity > 0 && n > 0 && first <= capacity && second <= capacity
    requires n > 1 ==> first == capacity && second > 0
    ensures
      var m := first + if n == 1 then 0 else second + (n - 2) * capacity;
      n == if m <= capacity then 1 else Ceil(m, capacity)
  {
    if n > 1 {
      var m := first + second + (n - 2) * capacity;
      assert m + capacity - 1 == n * capacity + (second - 1);
      DivisionOfSum(n, capacity, second - 1);
    }
  }

  lemma DivisionOfSum(n: nat, b: nat, r: nat)
    requires b > 0 && r < b
    ensures (n * b + r) / b == n
  {
    var q := (n * b + r) / b;
    assert q * b <= n * b + r < (q + 1) * b;
    if q < n {
      ProductOrder(q, n, b);
    } else if n < q {
      ProductOrder(n, q, b);
    }
  }

  lemma ProductOrder(p: nat, q: nat, b: nat)
    requires p < q
    ensures (p + 1) * b <= q * b
  {
  }

  // ---------------------------------------------------------------- conservation

  /** What the buckets hold, slots reserved but not yet written not counted. */
  ghost function Held(s: State, v: View): (held: seq<multiset<Tuple>>)
    requires |v.chains| == |v.holders|
    ensures |held| == |v.chains|
  {
    seq(|v.chains|, h requires 0 <= h < |v.chains| => multiset(Flat(s.mem, v.chains[h], PcAt(s, v.holders[h]).Hole())))
  }

  /** The tuples whose insertion is under way, from taking the latch up to storing. */
  ghost function InFlight(c: Config, threads: seq<Thread>, n: nat): multiset<Tuple>
    requires n <= |threads| == |c.rs|
  {
    if n == 0 then multiset{}
    else InFlight(c, threads, n - 1) + multiset(Flying(c.rs[n - 1], threads[n - 1]))
  }

  ghost function Flying(s: seq<Tuple>, th: Thread): seq<Tuple> {
    if th.pc.Owner() && !th.pc.Stored? && th.built < |s| then [s[th.built]] else []
  }

  /** The tuples whose insertion has not begun. */
  ghost function Pending(c: Config, threads: seq<Thread>, n: nat): multiset<Tuple>
    requires n <= |threads| == |c.rs|
  {
    if n == 0 then multiset{}
    else Pending(c, threads, n - 1) + multiset(Waits(c.rs[n - 1], threads[n - 1]))
  }

  ghost function Waits(s: seq<Tuple>, th: Thread): seq<Tuple> {
    var k := th.built + |Flying(s, th)|;
    if k <= |s| then s[k..] else []
  }

  /** Every tuple of the relation is stored once, in flight once or pending once. */
  lemma Conservation(c: Config, s: State, v: View, g: nat)
    requires Inv(c, s, v, g) && s.ready
    ensures |v.chains| == |v.holders| == c.heads
    ensures Sum(Held(s, v)) + InFlight(c, s.threads, |s.threads|) + Pending(c, s.threads, |s.threads|) ==
            multiset(Concat(c.rs))
  {
    assert Opened(0);
    HeldIsDone(c, s, v);
    AllDones(c, s.threads);
    BuiltOrNot(c, s.threads, |s.threads|);
    assert c.rs[..|c.rs|] == c.rs;
  }

  /** What the first `n` threads have stored. */
  ghost function BuiltBy(c: Config, threads: seq<Thread>, n: nat): multiset<Tuple>
    requires BuiltWithin(c, threads) && n <= |threads|
  {
    if n == 0 then multiset{} else BuiltBy(c, threads, n - 1) + multiset(c.rs[n - 1][..threads[n - 1].built])
  }

  lemma {:induction false} BuiltOrNot(c: Config, threads: seq<Thread>, n: nat)
    requires BuiltWithin(c, threads) && n <= |threads|
    ensures BuiltBy(c, threads, n) + InFlight(c, threads, n) + Pending(c, threads, n) == multiset(Concat(c.rs[..n]))
  {
    if n > 0 {
      BuiltOrNot(c, threads, n - 1);
      var s, th := c.rs[n - 1], threads[n - 1];
      assert c.rs[..n][..n - 1] == c.rs[..n - 1];
      ThreeParts(s, th);
      Regroup(BuiltBy(c, threads, n - 1), InFlight(c, threads, n - 1), Pending(c, threads, n - 1),
              Concat(c.rs[..n - 1]), s[..th.built], Flying(s, th), Waits(s, th), s);
    }
  }

  lemma ThreeParts(s: seq<Tuple>, th: Thread)
    requires th.built <= |s|
    ensures s == s[..th.built] + Flying(s, th) + Waits(s, th)
  {
  }

  lemma Regroup(a: multiset<Tuple>, b: multiset<Tuple>, d: multiset<Tuple>, all: seq<Tuple>,
                x: seq<Tuple>, y: seq<Tuple>, z: seq<Tuple>, s: seq<Tuple>)
    requires a + b + d == multiset(all) && s == x + y + z
    ensures (a + multiset(x)) + (b + multiset(y)) + (d + multiset(z)) == multiset(all + s)
  {
    assert multiset(s) == multiset(x) + multiset(y) + multiset(z);
  }

  /** What is done for each bucket. */
  ghost function Dones(c: Config, threads: seq<Thread>): (dones: seq<multiset<Tuple>>)
    requires BuiltWithin(c, threads)
    ensures |dones| == c.heads
  {
    seq(c.heads, h requires 0 <= h < c.heads => Done(c, threads, h))
  }

  lemma HeldIsDone(c: Config, s: State, v: View)
    requires TableOk(c, s, v)
    ensures Held(s, v) == Dones(c, s.threads)
  {
    forall h | 0 <= h < c.heads
      ensures Held(s, v)[h] == Dones(c, s.threads)[h]
    {
      HeadHolds(c, s, v, h);
    }
  }

  lemma HeadHolds(c: Config, s: State, v: View, h: nat)
    requires TableOk(c, s, v) && h < c.heads
    ensures multiset(Flat(s.mem, v.chains[h], PcAt(s, v.holders[h]).Hole())) == Done(c, s.threads, h)
  {
    assert HeadOk(c, s, v, h);
    assert Looked(0);
  }

  // A tuple belongs to exactly one bucket, so the buckets together hold what the threads have stored.

  lemma {:induction false} BelongingOne(c: Config, h: nat, s: seq<Tuple>, x: Tuple)
    ensures multiset(Belonging(c, h, s))[x] == if c.index(x.key) == h then multiset(s)[x] else 0
  {
    if s != [] {
      var n := |s| - 1;
      BelongingOne(c, h, s[..n], x);
      assert s == s[..n] + [s[n]];
    }
  }

  lemma {:induction false} DoneOne(c: Config, threads: seq<Thread>, h: nat, n: nat, x: Tuple)
    requires BuiltWithin(c, threads) && n <= |threads|
    ensures Sum(Parts(c, threads, h)[..n])[x] == if c.index(x.key) == h then BuiltBy(c, threads, n)[x] else 0
  {
    if n > 0 {
      DoneOne(c, threads, h, n - 1, x);
      var parts := Parts(c, threads, h);
      assert parts[..n][..n - 1] == parts[..n - 1];
      BelongingOne(c, h, c.rs[n - 1][..threads[n - 1].built], x);
    }
  }

  lemma {:induction false} DonesOne(c: Config, threads: seq<Thread>, n: nat, x: Tuple)
    requires BuiltWithin(c, threads) && n <= c.heads
    ensures Sum(Dones(c, threads)[..n])[x] == if c.index(x.key) < n then BuiltBy(c, threads, |threads|)[x] else 0
  {
    if n > 0 {
      DonesOne(c, threads, n - 1, x);
      DoneWhole(c, threads, n - 1, x);
      assert Dones(c, threads)[..n][..n - 1] == Dones(c, threads)[..n - 1];
    }
  }

  lemma AllDones(c: Config, threads: seq<Thread>)
    requires c.Valid() && BuiltWithin(c, threads)
    ensures Sum(Dones(c, threads)) == BuiltBy(c, threads, |threads|)
  {
    forall x
      ensures Sum(Dones(c, threads))[x] == BuiltBy(c, threads, |threads|)[x]
    {
      DonesOne(c, threads, c.heads, x);
      assert Dones(c, threads)[..c.heads] == Dones(c, threads);
    }
  }

  lemma DoneWhole(c: Config, threads: seq<Thread>, h: nat, x: Tuple)
    requires BuiltWithin(c, threads)
    ensures Done(c, threads, h)[x] == if c.index(x.key) == h then BuiltBy(c, threads, |threads|)[x] else 0
  {
    DoneOne(c, threads, h, |threads|, x);
    assert Parts(c, threads, h)[..|threads|] == Parts(c, threads, h);
  }

  // ---------------------------------------------------------------- progress

  ghost predicate Finished(c: Config, s: State) {
    forall i | 0 <= i < |s.threads| :: s.threads[i].status == Running && s.threads[i].round == c.probe + 1
  }

  /** The step only finds a latch taken. */
  ghost predicate Spins(c: Config, s: State, t: nat, a: Action) {
    && a == Tas && t < |s.threads| == |c.rs| && s.threads[t].built < |c.rs[t]|
    && var h := c.index(c.rs[t][s.threads[t].built].key); h < |s.latch| && s.latch[h]
  }

  /** Until all threads have finished, some thread can take a step other than finding a latch taken: there is no
      deadlock, neither at a latch nor at the barrier. */
  lemma Progress(c: Config, s: State, v: View, g: nat) returns (t: nat, a: Action)
    requires Inv(c, s, v, g) && !Finished(c, s)
    ensures IsSafe(c, s, Event(t, a)) && !Spins(c, s, t, a)
  {
    t := SomeReady(c, s, v, g);
    if s.threads[t].status == Woken {
      a := Wake;
    } else {
      t, a := ProgressOf(c, s, v, g, t);
    }
    var s' := if c.Accessible(s, t, a) then c.After(s, t, a) else s;
    var v', g' := StepKeeps(c, s, v, g, t, a, s');
  }

  lemma SomeReady(c: Config, s: State, v: View, g: nat) returns (t: nat)
    requires Inv(c, s, v, g) && !Finished(c, s)
    ensures t < |s.threads|
    ensures s.threads[t].status == Woken || (s.threads[t].status == Running && s.threads[t].round <= c.probe)
  {
    assert Opened(0);
    if i :| 0 <= i < |s.threads| && s.threads[i].status == Woken {
      t := i;
    } else {
      t := SomeRunning(s.threads);
      assert ThreadOk(c, t, s.threads[t]) && Eff(s.threads[t]) == g;
      if g == c.probe + 1 {
        AllFinished(c, s, g);
      }
    }
  }

  lemma AllFinished(c: Config, s: State, g: nat)
    requires ThreadsOk(c, s) && BarrierOk(s, g) && g == c.probe + 1
    requires forall i | 0 <= i < |s.threads| :: s.threads[i].status != Woken
    ensures Finished(c, s)
  {
    forall i | 0 <= i < |s.threads|
      ensures s.threads[i].status == Running && s.threads[i].round == c.probe + 1
    {
      assert ThreadOk(c, i, s.threads[i]) && Eff(s.threads[i]) == g;
    }
  }

  lemma {:induction false} SomeRunning(threads: seq<Thread>) returns (t: nat)
    requires NumWaiting(threads) < |threads|
    ensures t < |threads| && threads[t].status != Waiting
  {
    t := |threads| - 1;
    if threads[t].status == Waiting {
      t := SomeRunning(threads[..t]);
    }
  }

  /** A running thread can go on, or the thread that holds the latch it waits for can. */
  lemma ProgressOf(c: Config, s: State, v: View, g: nat, t0: nat) returns (t: nat, a: Action)
    requires Inv(c, s, v, g) && t0 < |s.threads| && s.threads[t0].status == Running && s.threads[t0].round <= c.probe
    ensures c.Next(s, t, a) && !Spins(c, s, t, a)
  {
    t := t0;
    assert Opened(0);
    var th := s.threads[t];
    assert ThreadOk(c, t, th);
    if th.pc.Owner() {
      OwnNext(c, s, v, g, t);
      a := OwnStep(c, th.pc);
    } else if th.pc.Walking? {
      a := Visit;
    } else if c.WorkDone(s, t) {
      a := Arrive;
    } else if th.round == 0 {
      a := Allocate;
    } else if th.round == c.probe {
      a := StartWalk;
    } else {
      t, a := ProgressBuild(c, s, v, g, t);
    }
  }

  lemma ProgressBuild(c: Config, s: State, v: View, g: nat, t0: nat) returns (t: nat, a: Action)
    requires Inv(c, s, v, g) && c.Next(s, t0, Tas)
    ensures c.Next(s, t, a) && !Spins(c, s, t, a)
  {
    t := t0;
    Building(c, s, v, g, t);
    var h := c.index(c.rs[t][s.threads[t].built].key);
    assert HeadOk(c, s, v, h);
    if s.latch[h] {
      t := v.holders[h];
      OwnNext(c, s, v, g, t);
      a := OwnStep(c, s.threads[t].pc);
    } else {
      a := Tas;
    }
  }

  /** A thread that holds a latch can go on. */
  lemma OwnNext(c: Config, s: State, v: View, g: nat, t: nat)
    requires Inv(c, s, v, g) && t < |s.threads| && s.threads[t].pc.Owner()
    ensures c.Next(s, t, OwnStep(c, s.threads[t].pc)) && OwnStep(c, s.threads[t].pc) != Tas
  {
    Inserting(c, s, v, g, t);
    assert Looked(0);
    assert Known(c, s.mem, v.chains[s.threads[t].pc.h], s.threads[t].pc);
  }

  /** The next step of a thread that holds a latch. */
  function OwnStep(c: Config, pc: Pc): Action
    requires pc.Owner()
  {
    match pc
    case Holding(_) => Load
    case Loaded(_, _) => Claim(c.EmptyCell())
    case Linking(_, _, _, stage) => if stage == 0 then LinkHead else if stage == 1 then LinkNext else SetCount
    case Reserved(_, _, _) => Store
    case Stored(_) => Unlock
  }

  // ---------------------------------------------------------------- the result

  /** The number of matches of all threads together. */
  function Total(threads: seq<Thread>, n: nat): nat
    requires n <= |threads|
  {
    if n == 0 then 0 else Total(threads, n - 1) + threads[n - 1].matches
  }

  /** All pairs of positions with equal keys. */
  ghost function JoiningPairs(r: seq<Tuple>, s: seq<Tuple>): set<(nat, nat)> {
    set i: nat, j: nat | i < |r| && j < |s| && r[i].key == s[j].key :: (i, j)
  }

  lemma {:induction false} JoinedConcat(r: seq<Tuple>, a: seq<Tuple>, b: seq<Tuple>, n: nat)
    requires n <= |b|
    ensures Joined(r, a + b, |a| + n) == Joined(r, a, |a|) + Joined(r, b, n)
  {
    if n > 0 {
      JoinedConcat(r, a, b, n - 1);
    } else {
      JoinedPrefix(r, a, b, |a|);
    }
  }

  lemma {:induction false} JoinedPrefix(r: seq<Tuple>, a: seq<Tuple>, b: seq<Tuple>, n: nat)
    requires n <= |a|
    ensures Joined(r, a + b, n) == Joined(r, a, n)
  {
    if n > 0 {
      JoinedPrefix(r, a, b, n - 1);
    }
  }

  lemma {:induction false} TotalJoined(c: Config, s: State, n: nat)
    requires |s.threads| == |c.ss| && n <= |s.threads|
    requires forall i | 0 <= i < |s.threads| :: s.threads[i].matches == Joined(Concat(c.rs), c.ss[i], |c.ss[i]|)
    ensures Total(s.threads, n) == Joined(Concat(c.rs), Concat(c.ss[..n]), |Concat(c.ss[..n])|)
  {
    if n > 0 {
      TotalJoined(c, s, n - 1);
      assert c.ss[..n][..n - 1] == c.ss[..n - 1];
      JoinedConcat(Concat(c.rs), Concat(c.ss[..n - 1]), c.ss[n - 1], |c.ss[n - 1]|);
    }
  }

  /** When all threads have finished, their matches add up to the number of pairs with equal keys. */
  lemma Result(c: Config, s: State, v: View, g: nat)
    requires Inv(c, s, v, g) && Finished(c, s)
    ensures Total(s.threads, |s.threads|) == |JoiningPairs(Concat(c.rs), Concat(c.ss))|
  {
    assert Opened(0);
    forall i | 0 <= i < |s.threads|
      ensures s.threads[i].matches == Joined(Concat(c.rs), c.ss[i], |c.ss[i]|)
    {
      assert ThreadOk(c, i, s.threads[i]) && WalkOk(c, s, v, i, s.threads[i]);
    }
    TotalJoined(c, s, |s.threads|);
    assert c.ss[..|c.ss|] == c.ss;
    JoinedPairs(Concat(c.rs), Concat(c.ss), |Concat(c.ss)|);
  }

  ghost function PairsAt(r: seq<Tuple>, key: int, j: nat): set<(nat, nat)> {
    set i: nat | i < |r| && r[i].key == key :: (i, j)
  }

  lemma {:induction false} JoinedPairs(r: seq<Tuple>, s: seq<Tuple>, n: nat)
    requires n == |s|
    ensures Joined(r, s, n) == |JoiningPairs(r, s)|
  {
    if n > 0 {
      var before, key := s[..n - 1], s[n - 1].key;
      JoinedPairs(r, before, n - 1);
      assert s == before + [s[n - 1]];
      JoinedPrefix(r, before, [s[n - 1]], n - 1);
      OccPairs(r, key, n - 1);
      LastPairs(r, s);
    } else {
      assert JoiningPairs(r, s) == {};
    }
  }

  /** The pairs with the last tuple of `s`, and those without it. */
  lemma LastPairs(r: seq<Tuple>, s: seq<Tuple>)
    requires s != []
    ensures
      var n := |s| - 1;
      && JoiningPairs(r, s) == JoiningPairs(r, s[..n]) + PairsAt(r, s[n].key, n)
      && JoiningPairs(r, s[..n]) !! PairsAt(r, s[n].key, n)
  {
  }

  lemma {:induction false} OccPairs(r: seq<Tuple>, key: int, j: nat)
    ensures |PairsAt(r, key, j)| == Occ(r, key)
  {
    if r == [] {
      assert PairsAt(r, key, j) == {};
    } else {
      var n := |r| - 1;
      OccPairs(r[..n], key, j);
      assert PairsAt(r, key, j) == PairsAt(r[..n], key, j) + if r[n].key == key then {(n, j)} else {};
    }
  }
}
