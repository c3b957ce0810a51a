/** Every reachable state of the concurrent join keeps the invariant, and what follows from it: one holder for each
    latch, no tuple lost, no probe before all have built, and a result that is the number of joining pairs. */
module NpjRuns {
  import opened Gates
  import opened NpjJoin
  import opened NpjInvariant
  import opened NpjSafety
  import opened NpjInsertion

  // ---------------------------------------------------------------- taking and releasing a latch

  /** In the build round nobody walks. */
  lemma Building(c: Config, s: State, v: View, g: nat, t: nat)
    requires Inv(c, s, v, g) && t < |s.threads| && s.threads[t].status == Running && s.threads[t].round == c.build
    ensures g == c.build && s.ready && TableOk(c, s, v) && ThreadOk(c, t, s.threads[t]) && BarrierOk(s, g)
    ensures ThreadsOk(c, s)
    ensures forall i | 0 <= i < |s.threads| :: WalkOk(c, s, v, i, s.threads[i]) && !s.threads[i].pc.Walking?
  {
    assert Opened(0);
    assert Eff(s.threads[t]) == Eff(s.threads[0]) == g;
    forall i | 0 <= i < |s.threads|
      ensures !s.threads[i].pc.Walking?
    {
      assert ThreadOk(c, i, s.threads[i]) && Eff(s.threads[i]) == g;
    }
  }

  lemma TasKeeps(c: Config, s: State, v: View, g: nat, t: nat, s': State) returns (v': View)
    requires Inv(c, s, v, g) && c.Steps(s, t, Tas, s')
    ensures c.Accessible(s, t, Tas) && Inv(c, s', v', g)
  {
    Building(c, s, v, g, t);
    var h := c.index(c.rs[t][s.threads[t].built].key);
    v' := v;
    if !s.latch[h] {
      v' := v.(holders := v.holders[h := t]);
      TableTas(c, s, v, t, h);
      LatchKeeps(c, s, v, g, t, s.threads[t].(pc := Holding(h)), s', v');
    }
  }

  /** A thread has taken or released a latch. */
  lemma LatchKeeps(c: Config, s: State, v: View, g: nat, t: nat, th: Thread, s': State, v': View)
    requires Inv(c, s, v, g) && t < |s.threads| && s.threads[t].status == Running && s.threads[t].round == c.build
    requires th == s.threads[t].(pc := th.pc) && !th.pc.Walking? && ThreadOk(c, t, th)
    requires s' == s.(threads := s.threads[t := th], latch := s'.latch) && TableOk(c, s', v')
    ensures Inv(c, s', v', g)
  {
    Building(c, s, v, g, t);
    BarrierStays(s, t, th, g);
    OneThread(c, s, v, t, th, s', v');
  }

  lemma UnlockKeeps(c: Config, s: State, v: View, g: nat, t: nat, s': State) returns (v': View)
    requires Inv(c, s, v, g) && c.Steps(s, t, Unlock, s')
    ensures c.Accessible(s, t, Unlock) && Inv(c, s', v', g)
  {
    Inserting(c, s, v, g, t);
    var h := s.threads[t].pc.h;
    v' := v.(holders := v.holders[h := -1]);
    TableUnlock(c, s, v, t, h);
    LatchKeeps(c, s, v, g, t, s.threads[t].(pc := Idle), s', v');
  }

  // ---------------------------------------------------------------- allocation

  lemma AllocateKeeps(c: Config, s: State, v: View, g: nat, s': State) returns (v': View)
    requires Inv(c, s, v, g) && c.Steps(s, 0, Allocate, s')
    ensures Inv(c, s', v', g)
  {
    assert Opened(0);
    v' := View(seq(c.heads, h requires 0 <= h < c.heads => [Head(h)]), seq(c.heads, _ => -1));
    assert Eff(s.threads[0]) == g == 0;
    forall i | 0 <= i < |s.threads|
      ensures s.threads[i].round == 0 && s.threads[i].built == 0 && s.threads[i].pc == Idle
      ensures WalkOk(c, s', v', i, s.threads[i])
    {
      assert Eff(s.threads[i]) == g && ThreadOk(c, i, s.threads[i]) && WalkOk(c, s, v, i, s.threads[i]);
    }
    forall h | 0 <= h < c.heads
      ensures HeadOk(c, s', v', h)
    {
      EmptyChain(c, s', h);
    }
  }

  lemma EmptyChain(c: Config, s: State, h: nat)
    requires BuiltWithin(c, s.threads) && forall i | 0 <= i < |s.threads| :: s.threads[i].built == 0
    requires h < c.heads && Head(h) in s.mem && s.mem[Head(h)] == c.EmptyCell()
    ensures ChainOk(c, s.mem, [Head(h)], h, Idle, Done(c, s.threads, h))
  {
    SumEmpty(Parts(c, s.threads, h));
    FlatCons(s.mem, Head(h), [], Null);
    assert [Head(h)] + [] == [Head(h)];
  }

  lemma {:induction false} SumEmpty(parts: seq<multiset<Tuple>>)
    requires forall i | 0 <= i < |parts| :: parts[i] == multiset{}
    ensures Sum(parts) == multiset{}
  {
    if parts != [] {
      SumEmpty(parts[..|parts| - 1]);
    }
  }

  // ---------------------------------------------------------------- probing

  /** In the probe round everything has been built and no latch is held. */
  lemma Probing(c: Config, s: State, v: View, g: nat, t: nat)
    requires Inv(c, s, v, g) && t < |s.threads| && s.threads[t].status == Running && s.threads[t].round == c.probe
    ensures g == c.probe && s.ready && TableOk(c, s, v) && ThreadOk(c, t, s.threads[t])
    ensures WalkOk(c, s, v, t, s.threads[t])
    ensures forall i | 0 <= i < |s.threads| :: s.threads[i].built == |c.rs[i]| && !s.threads[i].pc.Owner()
  {
    assert Opened(0);
    assert Eff(s.threads[t]) == Eff(s.threads[0]) == g;
    forall i | 0 <= i < |s.threads|
      ensures s.threads[i].built == |c.rs[i]| && !s.threads[i].pc.Owner()
    {
      assert ThreadOk(c, i, s.threads[i]) && Eff(s.threads[i]) == g;
    }
  }

  /** Then each chain holds every tuple of the relation that belongs there. */
  lemma Complete(c: Config, s: State, v: View, key: int)
    requires TableOk(c, s, v) && c.Valid() && |s.threads| == |c.rs| == |c.ss|
    requires forall i | 0 <= i < |s.threads| :: s.threads[i].built == |c.rs[i]| && !s.threads[i].pc.Owner()
    ensures
      var h := c.index(key);
      h < |v.chains| && ChainOk(c, s.mem, v.chains[h], h, Idle, Done(c, s.threads, h)) &&
      Occ(Flat(s.mem, v.chains[h], Null), key) == Occ(Concat(c.rs), key)
  {
    var h := c.index(key);
    assert HeadOk(c, s, v, h);
    assert Looked(0);
    AllDone(c, s.threads, h, |s.threads|);
    assert Parts(c, s.threads, h)[..|s.threads|] == Parts(c, s.threads, h) && c.rs[..|c.rs|] == c.rs;
    OccPermuted(Flat(s.mem, v.chains[h], Null), Belonging(c, h, Concat(c.rs)), key);
    BelongingOcc(c, Concat(c.rs), key);
  }

  /** A thread has changed that inserts nothing. */
  lemma ProbeKeeps(c: Config, s: State, v: View, g: nat, t: nat, th: Thread, s': State)
    requires Inv(c, s, v, g) && t < |s.threads| && s.ready && s' == s.With(t, th)
    requires SameRound(th, s.threads[t])
    requires th == s.threads[t].(pc := th.pc, probed := th.probed, matches := th.matches)
    requires !th.pc.Owner() && !s.threads[t].pc.Owner()
    requires ThreadOk(c, t, th) && WalkOk(c, s, v, t, th)
    ensures Inv(c, s', v, g)
  {
    assert Opened(0);
    BarrierStays(s, t, th, g);
    ProbeTable(c, s, v, t, th, s');
    forall i | 0 <= i < |s'.threads|
      ensures ThreadOk(c, i, s'.threads[i]) && WalkOk(c, s', v, i, s'.threads[i])
    {
      assert ThreadOk(c, i, s.threads[i]) && WalkOk(c, s, v, i, s.threads[i]);
    }
  }

  lemma ProbeTable(c: Config, s: State, v: View, t: nat, th: Thread, s': State)
    requires TableOk(c, s, v) && t < |s.threads| && s' == s.With(t, th) && !th.pc.Owner() && !s.threads[t].pc.Owner()
    requires th == s.threads[t].(pc := th.pc, probed := th.probed, matches := th.matches)
    ensures TableOk(c, s', v)
  {
    TableFrame(c, s, v, s.threads[t := th], s.called);
  }

  /** A running thread of the probe round, and the key of its current tuple. */
  ghost predicate ProbesKey(c: Config, s: State, t: nat, key: int) {
    && t < |s.threads| == |c.ss| && s.threads[t].status == Running && s.threads[t].round == c.probe
    && s.threads[t].probed < |c.ss[t]| && key == c.ss[t][s.threads[t].probed].key
  }

  /** What it may rely on. */
  lemma ProbeReady(c: Config, s: State, v: View, g: nat, t: nat, key: int)
    requires Inv(c, s, v, g) && ProbesKey(c, s, t, key)
    ensures s.ready && ThreadOk(c, t, s.threads[t]) && WalkOk(c, s, v, t, s.threads[t]) && !s.threads[t].pc.Owner()
    ensures c.index(key) < |v.chains|
    ensures Occ(Flat(s.mem, v.chains[c.index(key)], Null), key) == Occ(Concat(c.rs), key)
    ensures v.chains[c.index(key)] != [] && v.chains[c.index(key)][0] == Head(c.index(key))
    ensures BuiltWithin(c, s.threads)
    ensures ChainOk(c, s.mem, v.chains[c.index(key)], c.index(key), Idle, Done(c, s.threads, c.index(key)))
  {
    Probing(c, s, v, g, t);
    Complete(c, s, v, key);
  }

  lemma StartWalkKeeps(c: Config, s: State, v: View, g: nat, t: nat, s': State)
    requires Inv(c, s, v, g) && c.Steps(s, t, StartWalk, s')
    ensures Inv(c, s', v, g)
  {
    var th, key := s.threads[t], c.ss[t][s.threads[t].probed].key;
    ProbeReady(c, s, v, g, t, key);
    var th' := th.(pc := Walking(Head(c.index(key))));
    assert WalkAt(c, s.mem, v.chains[c.index(key)], t, th', 0);
    ProbeKeeps(c, s, v, g, t, th', s');
  }

  lemma VisitKeeps(c: Config, s: State, v: View, g: nat, t: nat, s': State)
    requires Inv(c, s, v, g) && c.Steps(s, t, Visit, s')
    ensures c.Accessible(s, t, Visit) && Inv(c, s', v, g)
  {
    Walks(c, s, v, g, t);
    var key := c.ss[t][s.threads[t].probed].key;
    var chain, k := WalkPlace(c, s, v, g, t, key);
    VisitOne(c, s, v, t, chain, k, c.index(key), Done(c, s.threads, c.index(key)));
    var matches := AfterVisit(c, s, t, chain, k);
    if k + 1 < |chain| {
      VisitNext(c, s, v, g, t, key, k, matches, s');
    } else {
      VisitLast(c, s, v, g, t, key, matches, s');
    }
  }

  lemma AfterVisit(c: Config, s: State, t: nat, chain: Chain, k: nat) returns (matches: nat)
    requires |s.threads| == |c.rs| == |c.ss| && c.Next(s, t, Visit) && s.threads[t].probed < |c.ss[t]|
    requires k < |chain| && s.threads[t].pc == Walking(chain[k]) && chain[k] in s.mem
    requires s.mem[chain[k]].count <= |s.mem[chain[k]].tuples| && s.mem[chain[k]].next == NextOf(chain, k)
    ensures
      var key, cell := c.ss[t][s.threads[t].probed].key, s.mem[chain[k]];
      matches == s.threads[t].matches + Occ(cell.tuples[..cell.count], key)
    ensures c.Accessible(s, t, Visit)
    ensures c.After(s, t, Visit) ==
            if k + 1 < |chain| then s.With(t, s.threads[t].(pc := Walking(chain[k + 1]), matches := matches))
            else s.With(t, s.threads[t].(pc := Idle, matches := matches, probed := s.threads[t].probed + 1))
  {
    var cell := s.mem[chain[k]];
    matches := s.threads[t].matches + Occ(cell.tuples[..cell.count], c.ss[t][s.threads[t].probed].key);
  }

  /** Where a walking thread is. */
  lemma WalkPlace(c: Config, s: State, v: View, g: nat, t: nat, key: int) returns (chain: Chain, k: nat)
    requires Inv(c, s, v, g) && ProbesKey(c, s, t, key) && s.threads[t].pc.Walking?
    ensures c.index(key) < |v.chains| && chain == v.chains[c.index(key)] && WalkAt(c, s.mem, chain, t, s.threads[t], k)
    ensures BuiltWithin(c, s.threads)
    ensures ChainOk(c, s.mem, chain, c.index(key), Idle, Done(c, s.threads, c.index(key)))
  {
    ProbeReady(c, s, v, g, t, key);
    chain := v.chains[c.index(key)];
    var place: nat :| WalkAt(c, s.mem, chain, t, s.threads[t], place);
    k := place;
  }

  /** The walk goes on to the next bucket. */
  lemma VisitNext(c: Config, s: State, v: View, g: nat, t: nat, key: int, k: nat, matches: nat, s': State)
    requires Inv(c, s, v, g) && ProbesKey(c, s, t, key)
    requires c.index(key) < |v.chains| && k + 1 < |v.chains[c.index(key)]|
    requires matches == Joined(Concat(c.rs), c.ss[t], s.threads[t].probed) +
                        Occ(Flat(s.mem, v.chains[c.index(key)][..k + 1], Null), key)
    requires s' == s.With(t, s.threads[t].(pc := Walking(v.chains[c.index(key)][k + 1]), matches := matches))
    ensures Inv(c, s', v, g)
  {
    ProbeReady(c, s, v, g, t, key);
    var chain := v.chains[c.index(key)];
    var th := s.threads[t].(pc := Walking(chain[k + 1]), matches := matches);
    assert WalkAt(c, s.mem, chain, t, th, k + 1);
    ProbeKeeps(c, s, v, g, t, th, s');
  }

  /** The walk is over, and all tuples with the key have been counted. */
  lemma VisitLast(c: Config, s: State, v: View, g: nat, t: nat, key: int, matches: nat, s': State)
    requires Inv(c, s, v, g) && ProbesKey(c, s, t, key) && c.index(key) < |v.chains|
    requires matches == Joined(Concat(c.rs), c.ss[t], s.threads[t].probed) +
                        Occ(Flat(s.mem, v.chains[c.index(key)], Null), key)
    requires s' == s.With(t, s.threads[t].(pc := Idle, matches := matches, probed := s.threads[t].probed + 1))
    ensures Inv(c, s', v, g)
  {
    ProbeReady(c, s, v, g, t, key);
    ProbeKeeps(c, s, v, g, t, s.threads[t].(pc := Idle, matches := matches, probed := s.threads[t].probed + 1), s');
  }

  lemma Walks(c: Config, s: State, v: View, g: nat, t: nat)
    requires Inv(c, s, v, g) && t < |s.threads| && s.threads[t].pc.Walking?
    ensures s.threads[t].status == Running && s.threads[t].round == c.probe && s.threads[t].probed < |c.ss[t]|
  {
    assert Opened(0);
    assert ThreadOk(c, t, s.threads[t]);
  }

  /** One bucket of the chain is counted. */
  lemma VisitOne(c: Config, s: State, v: View, t: nat, chain: Chain, k: nat, h: nat, done: multiset<Tuple>)
    requires t < |s.threads| && t < |c.ss| && s.threads[t].probed < |c.ss[t]|
    requires WalkAt(c, s.mem, chain, t, s.threads[t], k) && ChainOk(c, s.mem, chain, h, Idle, done)
    ensures chain[k] in s.mem && s.mem[chain[k]].count <= |s.mem[chain[k]].tuples|
    ensures s.mem[chain[k]].next == NextOf(chain, k)
    ensures
      var key, cell := c.ss[t][s.threads[t].probed].key, s.mem[chain[k]];
      s.threads[t].matches + Occ(cell.tuples[..cell.count], key) ==
      Joined(Concat(c.rs), c.ss[t], s.threads[t].probed) + Occ(Flat(s.mem, chain[..k + 1], Null), key)
    ensures k + 1 == |chain| ==> chain[..k + 1] == chain
  {
    InChain(c, s.mem, chain, k, h, done);
    OneMoreCounted(s.mem, chain, k, c.ss[t][s.threads[t].probed].key);
  }

  lemma InChain(c: Config, mem: map<Ref, Cell>, chain: Chain, k: nat, h: nat, done: multiset<Tuple>)
    requires ChainOk(c, mem, chain, h, Idle, done) && k < |chain|
    ensures chain[k] in mem && mem[chain[k]].count <= |mem[chain[k]].tuples| == c.capacity
    ensures mem[chain[k]].next == NextOf(chain, k)
  {
    assert Looked(0);
    assert At(mem, chain[k]).count <= c.capacity;
  }

  lemma OneMoreCounted(mem: map<Ref, Cell>, chain: Chain, k: nat, key: int)
    requires k < |chain| && chain[k] in mem && mem[chain[k]].count <= |mem[chain[k]].tuples|
    ensures Occ(Flat(mem, chain[..k + 1], Null), key) ==
            Occ(Flat(mem, chain[..k], Null), key) + Occ(mem[chain[k]].tuples[..mem[chain[k]].count], key)
  {
    FlatSnoc(mem, chain[..k], chain[k]);
    assert chain[..k + 1] == chain[..k] + [chain[k]];
    OccConcat(Flat(mem, chain[..k], Null), Filled(At(mem, chain[k]), false), key);
  }

  // ---------------------------------------------------------------- the barrier

  /** A thread that has done its work comes to the barrier. */
  ghost predicate AtBarrier(c: Config, s: State, t: nat) {
    && t < |s.threads| == |c.rs| == |c.ss|
    && var th := s.threads[t];
       && th.status == Running && th.pc == Idle && th.round <= c.probe && (th.round == 0 && t == 0 ==> s.ready)
       && (th.round == c.build ==> th.built == |c.rs[t]|) && (th.round == c.probe ==> th.probed == |c.ss[t]|)
  }

  /** It waits, or as the last one wakes the others. */
  lemma ArriveKeeps(c: Config, s: State, v: View, g: nat, t: nat, s': State) returns (g': nat)
    requires Inv(c, s, v, g) && c.Steps(s, t, Arrive, s')
    ensures Inv(c, s', v, g')
  {
    assert AtBarrier(c, s, t);
    if s.called + 1 == |s.threads| {
      g' := g + 1;
      LastArrives(c, s, v, g, t, s');
    } else {
      g' := g;
      OtherArrives(c, s, v, g, t, s');
    }
  }

  lemma OtherBarrier(s: State, g: nat, t: nat, th: Thread)
    requires BarrierOk(s, g) && t < |s.threads| && s.threads[t].status == Running && s.called + 1 != |s.threads|
    requires th == s.threads[t].(status := Waiting)
    ensures BarrierOk(s.(threads := s.threads[t := th], called := s.called + 1), g)
  {
    WaitingUpdate(s.threads, t, th);
  }

  lemma OtherArrives(c: Config, s: State, v: View, g: nat, t: nat, s': State)
    requires Inv(c, s, v, g) && AtBarrier(c, s, t) && s.called + 1 != |s.threads|
    requires s' == s.(threads := s.threads[t := s.threads[t].(status := Waiting)], called := s.called + 1)
    ensures Inv(c, s', v, g)
  {
    assert Opened(0);
    assert ThreadOk(c, t, s.threads[t]) && Eff(s.threads[t]) == g;
    var th := s.threads[t].(status := Waiting);
    OtherBarrier(s, g, t, th);
    OneChange(c, s, v, g, t, th, s.threads[t := th], s.called + 1, s');
  }

  /** Threads have changed only in how they stand to the barrier. */
  ghost predicate SameWork(th: Thread, th0: Thread) {
    th == th0.(status := th.status, round := th.round)
  }

  lemma OneChange(c: Config, s: State, v: View, g: nat, t: nat, th: Thread, threads: seq<Thread>, called: nat,
                  s': State)
    requires c.Valid() && Holds(c, s, v, g) && t < |s.threads| && SameWork(th, s.threads[t]) && ThreadOk(c, t, th)
    requires threads == s.threads[t := th] && s' == s.(threads := threads, called := called)
    ensures ThreadsOk(c, s') && (s.ready ==> TableOk(c, s', v))
    ensures forall i | 0 <= i < |threads| :: WalkOk(c, s', v, i, threads[i])
  {
    forall i | 0 <= i < |threads|
      ensures ThreadOk(c, i, threads[i])
    {
      assert ThreadOk(c, i, s.threads[i]);
    }
    RoundChange(c, s, v, g, threads, called, s');
  }

  lemma RoundChange(c: Config, s: State, v: View, g: nat, threads: seq<Thread>, called: nat, s': State)
    requires c.Valid() && Holds(c, s, v, g) && s' == s.(threads := threads, called := called)
    requires |threads| == |s.threads|
    requires forall i | 0 <= i < |threads| :: SameWork(threads[i], s.threads[i]) && ThreadOk(c, i, threads[i])
    ensures ThreadsOk(c, s') && (s.ready ==> TableOk(c, s', v))
    ensures forall i | 0 <= i < |threads| :: WalkOk(c, s', v, i, threads[i])
  {
    if s.ready {
      TableFrame(c, s, v, threads, called);
    }
    forall i | 0 <= i < |threads|
      ensures WalkOk(c, s', v, i, threads[i])
    {
      assert WalkOk(c, s, v, i, s.threads[i]) && SameWork(threads[i], s.threads[i]);
    }
  }

  /** A thread that goes on to the next round. */
  lemma NextRound(c: Config, t: nat, th: Thread, th': Thread)
    requires c.Valid() && t < |c.rs| == |c.ss| && ThreadOk(c, t, th) && th.pc == Idle && th.round <= c.probe
    requires th' == th.(status := Running, round := th.round + 1)
    requires th.round == c.build ==> th.built == |c.rs[t]|
    requires th.round == c.probe ==> th.probed == |c.ss[t]|
    ensures ThreadOk(c, t, th')
  {
  }

  /** What the broadcast makes of a thread. */
  lemma AfterBroadcast(c: Config, s: State, g: nat, t: nat, i: nat)
    requires c.Valid() && ThreadsOk(c, s) && BarrierOk(s, g) && AtBarrier(c, s, t) && s.called + 1 == |s.threads|
    requires i < |s.threads|
    ensures
      var th := Broadcast(s.threads)[t := s.threads[t].(round := s.threads[t].round + 1)][i];
      Eff(th) == g + 1 && th.status != Waiting && ThreadOk(c, i, th) && SameWork(th, s.threads[i])
    ensures i != t ==> s.threads[i].status == Waiting
  {
    assert ThreadOk(c, i, s.threads[i]) && Eff(s.threads[i]) == g;
    if i != t {
      OthersWait(s.threads, t, i);
    } else {
      NextRound(c, t, s.threads[t], s.threads[t].(round := s.threads[t].round + 1));
    }
  }

  lemma LastArrives(c: Config, s: State, v: View, g: nat, t: nat, s': State)
    requires Inv(c, s, v, g) && AtBarrier(c, s, t) && s.called + 1 == |s.threads|
    requires
      var th := s.threads[t].(round := s.threads[t].round + 1);
      s' == s.(threads := Broadcast(s.threads)[t := th], called := 0)
    ensures Inv(c, s', v, g + 1)
  {
    assert Opened(0);
    LastArrivesNow(c, s, v, g, t, s');
  }

  lemma LastArrivesNow(c: Config, s: State, v: View, g: nat, t: nat, s': State)
    requires c.Valid() && Holds(c, s, v, g) && AtBarrier(c, s, t) && s.called + 1 == |s.threads|
    requires
      var th := s.threads[t].(round := s.threads[t].round + 1);
      s' == s.(threads := Broadcast(s.threads)[t := th], called := 0)
    ensures Holds(c, s', v, g + 1)
  {
    LastBarrier(c, s, g, t, s'.threads);
    RoundChange(c, s, v, g, s'.threads, 0, s');
  }

  lemma LastBarrier(c: Config, s: State, g: nat, t: nat, threads: seq<Thread>)
    requires c.Valid() && ThreadsOk(c, s) && BarrierOk(s, g) && AtBarrier(c, s, t) && s.called + 1 == |s.threads|
    requires threads == Broadcast(s.threads)[t := s.threads[t].(round := s.threads[t].round + 1)]
    ensures NumWaiting(threads) == 0 && forall i | 0 <= i < |threads| :: Eff(threads[i]) == g + 1
    ensures forall i | 0 <= i < |threads| :: SameWork(threads[i], s.threads[i]) && ThreadOk(c, i, threads[i])
    ensures Past(threads[0], 0) && (Past(s.threads[0], 0) || t == 0)
  {
    forall i | 0 <= i < |threads|
      ensures Eff(threads[i]) == g + 1 && threads[i].status != Waiting
      ensures SameWork(threads[i], s.threads[i]) && ThreadOk(c, i, threads[i])
    {
      AfterBroadcast(c, s, g, t, i);
    }
    NoneWait(threads);
    AfterBroadcast(c, s, g, t, 0);
  }

  lemma WakeBarrier(s: State, g: nat, t: nat, th: Thread)
    requires BarrierOk(s, g) && t < |s.threads| && s.threads[t].status == Woken
    requires th == s.threads[t].(status := Running, round := s.threads[t].round + 1)
    ensures BarrierOk(s.With(t, th), g)
  {
    assert Eff(s.threads[t]) == g;
    WaitingUpdate(s.threads, t, th);
  }

  lemma WakeKeeps(c: Config, s: State, v: View, g: nat, t: nat, s': State)
    requires Inv(c, s, v, g) && c.Steps(s, t, Wake, s')
    ensures Inv(c, s', v, g)
  {
    Wakes(c, s, v, g, t, s.threads[t].(status := Running, round := s.threads[t].round + 1), s');
  }

  lemma Wakes(c: Config, s: State, v: View, g: nat, t: nat, th: Thread, s': State)
    requires Inv(c, s, v, g) && t < |s.threads| && s.threads[t].status == Woken
    requires th == s.threads[t].(status := Running, round := s.threads[t].round + 1) && s' == s.With(t, th)
    ensures Inv(c, s', v, g)
  {
    assert Opened(0);
    assert ThreadOk(c, t, s.threads[t]) && Eff(s.threads[t]) == g;
    NextRound(c, t, s.threads[t], th);
    WakeBarrier(s, g, t, th);
    OneChange(c, s, v, g, t, th, s.threads[t := th], s.called, s');
  }
}
