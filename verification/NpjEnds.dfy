/** The concurrent join ends: every step but a failed attempt at a latch uses up some of a fixed amount of work, and
    from every reachable state the join can be brought to its end. */
module NpjEnds {
  import opened Gates
  import opened NpjJoin
  import opened NpjInvariant
  import opened NpjSafety
  import opened NpjInsertion
  import opened NpjRuns
  import opened NpjResult
  import opened NpjThreads

  // ---------------------------------------------------------------- the work left

  ghost function Minus(a: nat, b: nat): nat {
    if a >= b then a - b else 0
  }

  /** No chain is longer than this. */
  ghost function Longest(c: Config): nat {
    |Concat(c.rs)| + 1
  }

  /** How many links lead on from bucket `r`, up to `most`. */
  ghost function LinksFrom(mem: map<Ref, Cell>, r: Ref, most: nat): (n: nat)
    ensures n <= most
    decreases most
  {
    if most == 0 || r !in mem || mem[r].next.Null? then 0 else 1 + LinksFrom(mem, mem[r].next.ref, most - 1)
  }

  /** The barriers still to be passed. */
  ghost function BarrierWork(c: Config, th: Thread): nat {
    3 * Minus(c.probe + 1, th.round) + match th.status case Running => 2 case Waiting => 1 case Woken => 0
  }

  /** The steps of the insertion under way. */
  ghost function InsertWork(pc: Pc): nat {
    match pc
    case Idle => 8
    case Holding(_) => 7
    case Loaded(_, _) => 6
    case Linking(_, _, _, stage) => if stage == 0 then 5 else if stage == 1 then 4 else 3
    case Reserved(_, _, _) => 2
    case Stored(_) => 9
    case Walking(_) => 8
  }

  /** The steps of the walk under way. */
  ghost function WalkWork(c: Config, mem: map<Ref, Cell>, pc: Pc): nat {
    if pc.Walking? then LinksFrom(mem, pc.at, Longest(c)) else Longest(c) + 1
  }

  ghost function ThreadWork(c: Config, mem: map<Ref, Cell>, t: nat, th: Thread): nat
    requires t < |c.rs| == |c.ss|
  {
    BarrierWork(c, th) + InsertWork(th.pc) + WalkWork(c, mem, th.pc) +
    10 * Minus(|c.rs[t]|, th.built) + (Longest(c) + 2) * Minus(|c.ss[t]|, th.probed)
  }

  /** The work of the first `n` threads. */
  ghost function ThreadsWork(c: Config, s: State, n: nat): nat
    requires n <= |s.threads| <= |c.rs| == |c.ss|
  {
    if n == 0 then 0 else ThreadsWork(c, s, n - 1) + ThreadWork(c, s.mem, n - 1, s.threads[n - 1])
  }

  /** The work left in a state. */
  ghost function Effort(c: Config, s: State): nat
    requires |s.threads| == |c.rs| == |c.ss|
  {
    ThreadsWork(c, s, |s.threads|) + if s.ready then 0 else 1
  }

  // ---------------------------------------------------------------- every step uses it up

  /** No thread has more work left than before, and thread `t` has less. */
  ghost predicate LessWork(c: Config, s: State, s': State, t: nat)
    requires |s.threads| == |c.rs| == |c.ss| == |s'.threads| && t < |s.threads|
  {
    && (forall i | 0 <= i < |s.threads| :: NoMoreWork(c, s, s', i))
    && ThreadWork(c, s'.mem, t, s'.threads[t]) < ThreadWork(c, s.mem, t, s.threads[t])
  }

  ghost predicate NoMoreWork(c: Config, s: State, s': State, i: nat)
    requires |s.threads| == |c.rs| == |c.ss| == |s'.threads| && i < |s.threads|
  {
    ThreadWork(c, s'.mem, i, s'.threads[i]) <= ThreadWork(c, s.mem, i, s.threads[i])
  }

  lemma {:induction false} LessInAll(c: Config, s: State, s': State, t: nat, n: nat)
    requires |s.threads| == |c.rs| == |c.ss| == |s'.threads| && t < |s.threads| && n <= |s.threads|
    requires LessWork(c, s, s', t)
    ensures ThreadsWork(c, s', n) <= ThreadsWork(c, s, n)
    ensures t < n ==> ThreadsWork(c, s', n) < ThreadsWork(c, s, n)
  {
    if n > 0 {
      LessInAll(c, s, s', t, n - 1);
      assert NoMoreWork(c, s, s', n - 1);
    }
  }

  /** Only thread `t` has changed, and nobody walks if the memory has. */
  lemma OneStep(c: Config, s: State, s': State, t: nat, th: Thread)
    requires |s.threads| == |c.rs| == |c.ss| && t < |s.threads| && s'.threads == s.threads[t := th]
    requires s'.mem == s.mem || forall i | 0 <= i < |s.threads| :: !s.threads[i].pc.Walking?
    requires ThreadWork(c, s'.mem, t, th) < ThreadWork(c, s.mem, t, s.threads[t])
    requires s'.ready == s.ready
    ensures Effort(c, s') < Effort(c, s)
  {
    forall i | 0 <= i < |s.threads|
      ensures NoMoreWork(c, s, s', i)
    {
    }
    LessInAll(c, s, s', t, |s.threads|);
  }

  /** A step of an insertion. */
  lemma InsertStep(c: Config, s: State, v: View, g: nat, t: nat, a: Action, s': State)
    requires Inv(c, s, v, g) && c.Steps(s, t, a, s') && c.Accessible(s, t, a) && !Spins(c, s, t, a)
    requires a.Tas? || a.Load? || a.Claim? || a.LinkHead? || a.LinkNext? || a.SetCount? || a.Store? || a.Unlock?
    ensures Effort(c, s') < Effort(c, s)
  {
    InBuild(c, s, v, g, t, a);
    Building(c, s, v, g, t);
    var th := s'.threads[t];
    assert s'.threads == s.threads[t := th];
    OneStep(c, s, s', t, th);
  }

  lemma InBuild(c: Config, s: State, v: View, g: nat, t: nat, a: Action)
    requires Inv(c, s, v, g) && c.Next(s, t, a) && (a == Tas || s.threads[t].pc.Owner())
    ensures s.threads[t].status == Running && s.threads[t].round == c.build && !s.threads[t].pc.Walking?
  {
    assert Opened(0);
    assert ThreadOk(c, t, s.threads[t]);
  }

  lemma AllocateStep(c: Config, s: State, v: View, g: nat, s': State)
    requires Inv(c, s, v, g) && c.Steps(s, 0, Allocate, s')
    ensures Effort(c, s') < Effort(c, s)
  {
    assert Opened(0);
    forall i | 0 <= i < |s.threads|
      ensures !s.threads[i].pc.Walking?
    {
      assert ThreadOk(c, i, s.threads[i]) && Eff(s.threads[i]) == g == Eff(s.threads[0]);
    }
    SameWorkLeft(c, s, s', |s.threads|);
  }

  lemma {:induction false} SameWorkLeft(c: Config, s: State, s': State, n: nat)
    requires |s.threads| == |c.rs| == |c.ss| && s'.threads == s.threads && n <= |s.threads|
    requires forall i | 0 <= i < |s.threads| :: !s.threads[i].pc.Walking?
    ensures ThreadsWork(c, s', n) == ThreadsWork(c, s, n)
  {
    if n > 0 {
      SameWorkLeft(c, s, s', n - 1);
    }
  }

  // ---------------------------------------------------------------- walking

  /** On a chain the links lead to its end. */
  lemma {:induction false} LinksToEnd(mem: map<Ref, Cell>, chain: Chain, h: nat, k: nat, most: nat)
    requires Follows(mem, h, chain) && k < |chain| <= k + 1 + most
    ensures LinksFrom(mem, chain[k], most) == |chain| - 1 - k
    decreases |chain| - k
  {
    assert mem[chain[k]].next == NextOf(chain, k);
    if k + 1 < |chain| {
      LinksToEnd(mem, chain, h, k + 1, most - 1);
    }
  }

  lemma {:induction false} BelongingSize(c: Config, h: nat, s: seq<Tuple>)
    ensures |Belonging(c, h, s)| <= |s|
  {
    if s != [] {
      BelongingSize(c, h, s[..|s| - 1]);
    }
  }

  lemma {:induction false} OneInEach(mem: map<Ref, Cell>, chain: Chain)
    requires forall k | 0 <= k < |chain| :: chain[k] in mem && 0 < mem[chain[k]].count <= |mem[chain[k]].tuples|
    ensures |chain| <= |Flat(mem, chain, Null)|
  {
    if chain != [] {
      OneInEach(mem, chain[1..]);
    }
  }

  /** All buckets of a chain but the first one hold a tuple. */
  lemma ChainNotLonger(c: Config, mem: map<Ref, Cell>, chain: Chain, h: nat, done: multiset<Tuple>)
    requires c.Valid() && ChainOk(c, mem, chain, h, Idle, done)
    ensures Follows(mem, h, chain) && |chain| <= |done| + 1
  {
    ChainFollows(c, mem, chain, h, done);
    assert Looked(0);
    var rest := chain[1..];
    forall k | 0 <= k < |rest|
      ensures rest[k] in mem && 0 < mem[rest[k]].count <= |mem[rest[k]].tuples|
    {
      InChain(c, mem, chain, k + 1, h, done);
      assert At(mem, chain[k + 1]) == mem[rest[k]];
    }
    OneInEach(mem, rest);
    assert |multiset(Flat(mem, chain, Null))| == |Flat(mem, chain, Null)|;
  }

  /** The chain of the key that a thread probes, and that no chain is longer than Longest. */
  lemma ChainOfKey(c: Config, s: State, v: View, g: nat, t: nat, key: int) returns (chain: Chain)
    requires Inv(c, s, v, g) && ProbesKey(c, s, t, key)
    ensures Follows(s.mem, c.index(key), chain) && |chain| <= Longest(c)
    ensures c.index(key) < |v.chains| && chain == v.chains[c.index(key)]
  {
    Probing(c, s, v, g, t);
    Complete(c, s, v, key);
    var h := c.index(key);
    chain := v.chains[h];
    ChainNotLonger(c, s.mem, chain, h, Done(c, s.threads, h));
    AllDone(c, s.threads, h, |s.threads|);
    assert Parts(c, s.threads, h)[..|s.threads|] == Parts(c, s.threads, h) && c.rs[..|c.rs|] == c.rs;
    BelongingSize(c, h, Concat(c.rs));
  }

  lemma StartWalkStep(c: Config, s: State, v: View, g: nat, t: nat, s': State)
    requires Inv(c, s, v, g) && c.Steps(s, t, StartWalk, s')
    ensures Effort(c, s') < Effort(c, s)
  {
    OneStep(c, s, s', t, s'.threads[t]);
  }

  lemma VisitStep(c: Config, s: State, v: View, g: nat, t: nat, s': State)
    requires Inv(c, s, v, g) && c.Steps(s, t, Visit, s') && c.Accessible(s, t, Visit)
    ensures Effort(c, s') < Effort(c, s)
  {
    var th := s.threads[t];
    Walks(c, s, v, g, t);
    var key := c.ss[t][th.probed].key;
    var same, k := WalkPlace(c, s, v, g, t, key);
    var chain := ChainOfKey(c, s, v, g, t, key);
    VisitLess(c, s, t, chain, c.index(key), k, s');
    OneStep(c, s, s', t, s'.threads[t]);
  }

  /** The walk goes on to the next bucket, or the tuple is done with. */
  lemma VisitLess(c: Config, s: State, t: nat, chain: Chain, h: nat, k: nat, s': State)
    requires c.Steps(s, t, Visit, s') && c.Accessible(s, t, Visit)
    requires Follows(s.mem, h, chain) && k < |chain| <= Longest(c) && s.threads[t].pc == Walking(chain[k])
    ensures ThreadWork(c, s.mem, t, s'.threads[t]) < ThreadWork(c, s.mem, t, s.threads[t])
  {
    var th, th', left := s.threads[t], s'.threads[t], Minus(|c.ss[t]|, s.threads[t].probed);
    assert s.mem[chain[k]].next == NextOf(chain, k);
    LinksToEnd(s.mem, chain, h, k, Longest(c));
    if k + 1 < |chain| {
      LinksToEnd(s.mem, chain, h, k + 1, Longest(c));
    } else {
      assert (Longest(c) + 2) * left == (Longest(c) + 2) * (left - 1) + Longest(c) + 2;
    }
  }

  // ---------------------------------------------------------------- the barrier

  lemma ArriveStep(c: Config, s: State, v: View, g: nat, t: nat, s': State)
    requires Inv(c, s, v, g) && c.Steps(s, t, Arrive, s')
    ensures Effort(c, s') < Effort(c, s)
  {
    forall i | 0 <= i < |s.threads|
      ensures NoMoreWork(c, s, s', i)
    {
    }
    LessInAll(c, s, s', t, |s.threads|);
  }

  lemma WakeStep(c: Config, s: State, v: View, g: nat, t: nat, s': State)
    requires Inv(c, s, v, g) && c.Steps(s, t, Wake, s')
    ensures Effort(c, s') < Effort(c, s)
  {
    assert Opened(0);
    assert ThreadOk(c, t, s.threads[t]);
    OneStep(c, s, s', t, s'.threads[t]);
  }

  /** A failed attempt at a latch changes nothing, and every other step uses up work. */
  lemma StepUsesWork(c: Config, s: State, v: View, g: nat, t: nat, a: Action, s': State)
    requires Inv(c, s, v, g) && c.Steps(s, t, a, s')
    ensures if Spins(c, s, t, a) then s' == s else |s'.threads| == |s.threads| && Effort(c, s') < Effort(c, s)
  {
    var v', g' := StepKeeps(c, s, v, g, t, a, s');
    if !Spins(c, s, t, a) {
      match a
      case Allocate => AllocateStep(c, s, v, g, s');
      case StartWalk => StartWalkStep(c, s, v, g, t, s');
      case Visit => VisitStep(c, s, v, g, t, s');
      case Arrive => ArriveStep(c, s, v, g, t, s');
      case Wake => WakeStep(c, s, v, g, t, s');
      case _ => InsertStep(c, s, v, g, t, a, s');
    }
  }

  // ---------------------------------------------------------------- runs

  /** No run has more steps than this that are not spins. */
  ghost function MostSteps(c: Config): nat {
    var r, s := |Concat(c.rs)|, |Concat(c.ss)|;
    1 + |c.rs| * (3 * c.probe + r + 15) + 10 * r + (r + 3) * s
  }

  lemma {:induction false} WorkAtStart(c: Config, n: nat, one: nat, each: nat)
    requires n <= |c.rs| == |c.ss| && one == 3 * c.probe + Longest(c) + 14 && each == Longest(c) + 2
    ensures ThreadsWork(c, c.Start(), n) == n * one + 10 * |Concat(c.rs[..n])| + each * |Concat(c.ss[..n])|
  {
    if n > 0 {
      WorkAtStart(c, n - 1, one, each);
      assert c.rs[..n][..n - 1] == c.rs[..n - 1] && c.ss[..n][..n - 1] == c.ss[..n - 1];
      OneMoreShare(n, one, each, |Concat(c.ss[..n - 1])|, |c.ss[n - 1]|);
      ThreadAtStart(c, n - 1, one, each);
    }
  }

  lemma ThreadAtStart(c: Config, t: nat, one: nat, each: nat)
    requires t < |c.rs| == |c.ss| && one == 3 * c.probe + Longest(c) + 14 && each == Longest(c) + 2
    ensures ThreadWork(c, c.Start().mem, t, c.Start().threads[t]) == one + 10 * |c.rs[t]| + each * |c.ss[t]|
  {
  }

  lemma OneMoreShare(n: nat, one: nat, each: nat, x: nat, y: nat)
    requires n > 0
    ensures n * one == (n - 1) * one + one && each * (x + y) == each * x + each * y
  {
  }

  /** The steps of a run up to `n` that are not spins. */
  ghost function RealSteps(c: Config, states: seq<State>, events: seq<Event>, n: nat): nat
    requires n <= |events| < |states|
  {
    if n == 0 then 0
    else RealSteps(c, states, events, n - 1) +
         if Spins(c, states[n - 1], events[n - 1].t, events[n - 1].a) then 0 else 1
  }

  /** Every run has at most MostSteps steps that are not spins. */
  lemma RunsAreShort(c: Config, states: seq<State>, events: seq<Event>)
    requires c.Valid() && IsRun(c, states, events)
    ensures RealSteps(c, states, events, |events|) <= MostSteps(c)
  {
    WorkOfRun(c, states, events, |events|);
  }

  lemma {:induction false} WorkOfRun(c: Config, states: seq<State>, events: seq<Event>, n: nat)
    requires c.Valid() && IsRun(c, states, events) && n <= |events|
    ensures |states[n].threads| == |c.rs|
    ensures RealSteps(c, states, events, n) + Effort(c, states[n]) <= MostSteps(c)
  {
    if n == 0 {
      WorkAtStart(c, |c.rs|, 3 * c.probe + Longest(c) + 14, Longest(c) + 2);
      assert c.rs[..|c.rs|] == c.rs && c.ss[..|c.ss|] == c.ss;
    } else {
      WorkOfRun(c, states, events, n - 1);
      var v, g := RunKeeps(c, states[..n], events[..n - 1]);
      assert states[..n][|events[..n - 1]|] == states[n - 1];
      StepUsesWork(c, states[n - 1], v, g, events[n - 1].t, events[n - 1].a, states[n]);
    }
  }

  /** Every run can be continued to one in which all threads have finished. */
  lemma {:induction false} Completes(c: Config, states: seq<State>, events: seq<Event>)
    returns (states': seq<State>, events': seq<Event>)
    requires c.Valid() && IsRun(c, states, events)
    ensures IsRun(c, states', events') && states <= states' && events <= events'
    ensures Finished(c, states'[|events'|])
    decreases WorkLeft(c, states[|events|])
  {
    var s := states[|events|];
    var v, g := RunKeeps(c, states, events);
    if Finished(c, s) {
      states', events' := states, events;
    } else {
      var t, a := Progress(c, s, v, g);
      var s' := c.After(s, t, a);
      StepUsesWork(c, s, v, g, t, a, s');
      RunGoesOn(c, states, events, t, a, s');
      states', events' := Completes(c, states + [s'], events + [Event(t, a)]);
    }
  }

  ghost function WorkLeft(c: Config, s: State): nat {
    if |s.threads| == |c.rs| == |c.ss| then Effort(c, s) else 0
  }

  lemma RunGoesOn(c: Config, states: seq<State>, events: seq<Event>, t: nat, a: Action, s': State)
    requires IsRun(c, states, events) && c.Steps(states[|events|], t, a, s')
    ensures IsRun(c, states + [s'], events + [Event(t, a)])
  {
    var more, events' := states + [s'], events + [Event(t, a)];
    forall i | 0 <= i < |events'|
      ensures c.Steps(more[i], events'[i].t, events'[i].a, more[i + 1])
    {
      if i < |events| {
        assert c.Steps(states[i], events[i].t, events[i].a, states[i + 1]);
      }
    }
  }

  /** The join of any two relations by any number of threads can be set up. */
  method Prepare(r: seq<Tuple>, s: seq<Tuple>, threads: nat, heads: nat, capacity: nat, index: int -> nat,
                 build: nat, probe: nat)
    returns (c: Config, ghost states: seq<State>)
    requires threads > 0 && heads > 0 && capacity > 0 && 0 < build < probe && forall k :: index(k) < heads
    ensures c.Valid() && |c.rs| == threads && IsCut(c.rs, r, threads) && IsCut(c.ss, s, threads)
    ensures c.heads == heads && c.capacity == capacity && c.index == index && IsRun(c, states, [])
  {
    var rs := Slices(r, threads);
    var ss := Slices(s, threads);
    c := Config(rs, ss, heads, capacity, index, build, probe);
    states := [c.Start()];
  }

  /** The join of two relations cut into slices: whatever has happened, it can be brought to its end, and then the
      threads have found as many matches as there are joining pairs. */
  lemma JoinEnds(c: Config, r: seq<Tuple>, s: seq<Tuple>, states: seq<State>, events: seq<Event>)
    returns (states': seq<State>, events': seq<Event>)
    requires c.Valid() && IsCut(c.rs, r, |c.rs|) && IsCut(c.ss, s, |c.ss|) && IsRun(c, states, events)
    ensures IsRun(c, states', events') && states <= states' && events <= events'
    ensures
      var last := states'[|events'|];
      Finished(c, last) && Total(last.threads, |last.threads|) == |JoiningPairs(r, s)|
  {
    states', events' := Completes(c, states, events);
    JoinIsCorrect(c, r, s, states', events');
  }
}
