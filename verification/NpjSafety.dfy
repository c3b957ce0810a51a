/** The parts of the invariant of the concurrent join: the barrier, one thread, and the table with its latches. */
module NpjSafety {
  import opened NpjJoin
  import opened NpjInvariant

  /** The chain of every bucket, and which thread holds its latch, or -1: what the state means, though no thread
      keeps it. */
  datatype View = View(chains: seq<Chain>, holders: seq<int>)

  // ---------------------------------------------------------------- the barrier

  /** The round a thread is in, or goes to when it runs again. */
  function Eff(th: Thread): nat {
    if th.status == Woken then th.round + 1 else th.round
  }

  function NumWaiting(threads: seq<Thread>): (n: nat)
    ensures n <= |threads|
  {
    if threads == [] then 0
    else NumWaiting(threads[..|threads| - 1]) + if threads[|threads| - 1].status == Waiting then 1 else 0
  }

  /** All threads are in the same round, and the barrier has counted those that wait. */
  ghost predicate BarrierOk(s: State, g: nat) {
    && (forall i | 0 <= i < |s.threads| :: Eff(s.threads[i]) == g)
    && s.called == NumWaiting(s.threads) < |s.threads|
  }

  lemma {:induction false} WaitingUpdate(threads: seq<Thread>, t: nat, th: Thread)
    requires t < |threads|
    ensures NumWaiting(threads[t := th]) + (if threads[t].status == Waiting then 1 else 0) ==
            NumWaiting(threads) + if th.status == Waiting then 1 else 0
  {
    var n := |threads| - 1;
    if t < n {
      WaitingUpdate(threads[..n], t, th);
      assert threads[t := th][..n] == threads[..n][t := th];
    } else {
      assert threads[t := th][..n] == threads[..n];
    }
  }

  lemma {:induction false} OthersWait(threads: seq<Thread>, t: nat, i: nat)
    requires t < |threads| && i < |threads| && i != t && threads[t].status != Waiting
    requires NumWaiting(threads) + 1 == |threads|
    ensures threads[i].status == Waiting
  {
    var n := |threads| - 1;
    if threads[n].status != Waiting {
      if i < n {
        AllWait(threads[..n], i);
      }
      if t < n {
        AllWait(threads[..n], t);
      }
    } else if i < n {
      OthersWait(threads[..n], t, i);
    }
  }

  lemma {:induction false} AllWait(threads: seq<Thread>, i: nat)
    requires i < |threads| && NumWaiting(threads) == |threads|
    ensures threads[i].status == Waiting
  {
    if i < |threads| - 1 {
      AllWait(threads[..|threads| - 1], i);
    }
  }

  lemma {:induction false} NoneWait(threads: seq<Thread>)
    requires forall i | 0 <= i < |threads| :: threads[i].status != Waiting
    ensures NumWaiting(threads) == 0
  {
    if threads != [] {
      NoneWait(threads[..|threads| - 1]);
    }
  }

  // ---------------------------------------------------------------- one thread

  ghost predicate Past(th: Thread, x: nat) {
    th.round > x || (th.round == x && th.status != Running)
  }

  /** A thread inserts only in the build round and walks chains only in the probe round; before a round nothing, and
      after it everything of its slice is done. */
  ghost predicate ThreadOk(c: Config, t: nat, th: Thread)
    requires t < |c.rs| == |c.ss|
  {
    && th.built <= |c.rs[t]| && th.probed <= |c.ss[t]|
    && (th.pc != Idle ==> th.status == Running)
    && (th.pc.Owner() ==> th.round == c.build)
    && (th.pc.Owner() && !th.pc.Stored? ==> th.built < |c.rs[t]| && c.index(c.rs[t][th.built].key) == th.pc.h)
    && LinksOwn(t, th)
    && (th.pc.Walking? ==> th.round == c.probe && th.probed < |c.ss[t]|)
    && (th.round < c.build ==> th.built == 0)
    && (Past(th, c.build) ==> th.built == |c.rs[t]|)
    && (th.round < c.probe ==> th.probed == 0 && th.matches == 0)
    && (Past(th, c.probe) ==> th.probed == |c.ss[t]|)
    && (if th.status == Running then th.round <= c.probe + 1 else th.round <= c.probe)
  }

  /** The bucket being linked in is the one last taken by the thread. */
  ghost predicate LinksOwn(t: nat, th: Thread) {
    th.pc.Linking? ==> th.used > 0 && th.pc.b == Over(t, th.used - 1)
  }

  // ---------------------------------------------------------------- the table

  /** Chains contain only overflow buckets below this number. */
  function Bound(th: Thread): int {
    if th.pc.Linking? then th.used - 1 else th.used
  }

  ghost predicate Apart(chains: seq<Chain>) {
    forall h, k, h', k' | 0 <= h < |chains| && 0 <= k < |chains[h]| && 0 <= h' < |chains| && 0 <= k' < |chains[h']| &&
                          chains[h][k] == chains[h'][k'] :: h == h'
  }

  ghost predicate Taken(r: Ref, threads: seq<Thread>) {
    r.Over? ==> r.t < |threads| && r.n < Bound(threads[r.t])
  }

  ghost predicate AllTaken(chain: Chain, threads: seq<Thread>) {
    forall k | 0 <= k < |chain| :: Taken(chain[k], threads)
  }

  function PcAt(s: State, holder: int): Pc {
    if 0 <= holder < |s.threads| then s.threads[holder].pc else Idle
  }

  /** The latch is set exactly while some thread holds it. */
  ghost predicate HolderOk(s: State, h: nat, holder: int)
    requires h < |s.latch|
  {
    && -1 <= holder < |s.threads| && (s.latch[h] <==> holder >= 0)
    && (holder >= 0 ==> s.threads[holder].pc.Owner() && s.threads[holder].pc.h == h)
  }

  ghost predicate HeadOk(c: Config, s: State, v: View, h: nat)
    requires BuiltWithin(c, s.threads) && h < |s.latch| == |v.chains| == |v.holders|
  {
    && HolderOk(s, h, v.holders[h])
    && ChainOk(c, s.mem, v.chains[h], h, PcAt(s, v.holders[h]), Done(c, s.threads, h))
    && AllTaken(v.chains[h], s.threads)
  }

  ghost predicate TableOk(c: Config, s: State, v: View) {
    && BuiltWithin(c, s.threads) && |s.latch| == |v.chains| == |v.holders| == c.heads
    && (forall h | 0 <= h < c.heads :: HeadOk(c, s, v, h))
    && (forall i | 0 <= i < |s.threads| && s.threads[i].pc.Owner() ::
          s.threads[i].pc.h < c.heads && v.holders[s.threads[i].pc.h] == i)
    && Apart(v.chains)
  }

  /** Threads have changed in a way that does not concern the table. */
  lemma TableFrame(c: Config, s: State, v: View, threads: seq<Thread>, called: nat)
    requires TableOk(c, s, v) && |threads| == |s.threads|
    requires forall i | 0 <= i < |threads| ::
                 threads[i].built == s.threads[i].built && threads[i].used == s.threads[i].used
    requires forall i | 0 <= i < |threads| && (threads[i].pc.Owner() || s.threads[i].pc.Owner()) ::
                 threads[i].pc == s.threads[i].pc
    ensures TableOk(c, s.(threads := threads, called := called), v)
  {
    var s' := s.(threads := threads, called := called);
    forall h | 0 <= h < c.heads
      ensures HeadOk(c, s', v, h)
    {
      assert HeadOk(c, s, v, h);
      DoneFrame(c, s.threads, threads, h);
      forall k | 0 <= k < |v.chains[h]|
        ensures Taken(v.chains[h][k], threads)
      {
        assert Taken(v.chains[h][k], s.threads);
      }
    }
  }

  /** A bucket that the thread `t` may write while it holds the latch of `h`. */
  ghost predicate Writable(s: State, v: View, t: nat, h: nat, r: Ref)
    requires t < |s.threads| && h < |v.chains|
  {
    r in v.chains[h] || (r.Over? && r.t == t && r.n >= Bound(s.threads[t]))
  }

  /** A write by the thread that holds the latch of `h` leaves all other chains alone. */
  lemma OthersUntouched(c: Config, s: State, v: View, t: nat, th: Thread, h: nat, r: Ref, cell: Cell, h': nat)
    requires TableOk(c, s, v) && t < |s.threads| && h < c.heads && h' < c.heads && h' != h && v.holders[h] == t
    requires forall i | 0 <= i < |s.threads| :: LinksOwn(i, s.threads[i])
    requires Writable(s, v, t, h, r) && th.built <= |c.rs[t]| && Bound(th) >= Bound(s.threads[t])
    requires BuiltWithin(c, s.threads[t := th]) && Done(c, s.threads[t := th], h') == Done(c, s.threads, h')
    ensures HeadOk(c, s.(threads := s.threads[t := th], mem := s.mem[r := cell]), v, h')
  {
    assert HeadOk(c, s, v, h) && HeadOk(c, s, v, h');
    var holder := v.holders[h'];
    var pc := PcAt(s, holder);
    forall k | 0 <= k < |v.chains[h']|
      ensures v.chains[h'][k] != r && Taken(v.chains[h'][k], s.threads[t := th])
    {
      assert Taken(v.chains[h'][k], s.threads);
    }
    if pc.Linking? && r in v.chains[h] {
      var k :| 0 <= k < |v.chains[h]| && v.chains[h][k] == r;
      assert Taken(v.chains[h][k], s.threads);
    }
    ChainFrame(c, s.mem, r, cell, v.chains[h'], h', pc, Done(c, s.threads, h'));
  }

  /** A step of an insertion keeps the table in order if it keeps the chain concerned in order. */
  lemma TableStep(c: Config, s: State, v: View, t: nat, th: Thread, h: nat, r: Ref, cell: Cell, chain: Chain)
    requires TableOk(c, s, v) && t < |s.threads| && s.threads[t].pc.Owner() && s.threads[t].pc.h == h && h < c.heads
    requires forall i | 0 <= i < |s.threads| :: LinksOwn(i, s.threads[i])
    requires Writable(s, v, t, h, r) && th.built <= |c.rs[t]| && Bound(th) >= Bound(s.threads[t])
    requires BuiltWithin(c, s.threads[t := th])
    requires forall h' | 0 <= h' < c.heads && h' != h :: Done(c, s.threads[t := th], h') == Done(c, s.threads, h')
    requires th.pc.Owner() && th.pc.h == h
    requires ChainOk(c, s.mem[r := cell], chain, h, th.pc, Done(c, s.threads[t := th], h))
    requires chain == v.chains[h] || (r.Over? && r.t == t && Bound(s.threads[t]) <= r.n < Bound(th) &&
                                      |v.chains[h]| > 0 && chain == [v.chains[h][0], r] + v.chains[h][1..])
    ensures TableOk(c, s.(threads := s.threads[t := th], mem := s.mem[r := cell]), v.(chains := v.chains[h := chain]))
  {
    var s', v' := s.(threads := s.threads[t := th], mem := s.mem[r := cell]), v.(chains := v.chains[h := chain]);
    assert HeadOk(c, s, v, h);
    ChainTaken(v.chains[h], s.threads, t, th, r, chain);
    forall h' | 0 <= h' < c.heads
      ensures HeadOk(c, s', v', h')
    {
      if h' != h {
        OthersUntouched(c, s, v, t, th, h, r, cell, h');
        assert HeadOk(c, s', v, h');
      }
    }
    StillApart(c, s, v, t, h, r, chain);
  }

  lemma ChainTaken(old0: Chain, threads: seq<Thread>, t: nat, th: Thread, r: Ref, chain: Chain)
    requires AllTaken(old0, threads) && t < |threads| && Bound(th) >= Bound(threads[t])
    requires chain == old0 || (r.Over? && r.t == t && Bound(threads[t]) <= r.n < Bound(th) &&
                               |old0| > 0 && chain == [old0[0], r] + old0[1..])
    ensures AllTaken(chain, threads[t := th])
  {
    forall k | 0 <= k < |chain|
      ensures Taken(chain[k], threads[t := th])
    {
      assert chain[k] == r || Taken(chain[k], threads) by {
        if chain == old0 {
          assert Taken(old0[k], threads);
        } else if k >= 2 {
          assert Taken(old0[k - 1], threads);
        } else {
          assert Taken(old0[0], threads);
        }
      }
    }
  }

  lemma StillApart(c: Config, s: State, v: View, t: nat, h: nat, r: Ref, chain: Chain)
    requires TableOk(c, s, v) && t < |s.threads| && h < c.heads
    requires chain == v.chains[h] || (r.Over? && r.t == t && Bound(s.threads[t]) <= r.n &&
                                      |v.chains[h]| > 0 && chain == [v.chains[h][0], r] + v.chains[h][1..])
    ensures Apart(v.chains[h := chain])
  {
    forall h', k', k | 0 <= h' < c.heads && h' != h && 0 <= k' < |v.chains[h']| && 0 <= k < |chain|
      ensures chain[k] != v.chains[h'][k']
    {
      assert HeadOk(c, s, v, h') && Taken(v.chains[h'][k'], s.threads);
      if chain != v.chains[h] {
        assert chain[k] == r || chain[k] == v.chains[h][if k == 0 then 0 else k - 1];
      }
    }
  }

  /** Taking or releasing a latch leaves all other buckets alone. */
  lemma OthersKeepLatch(c: Config, s: State, v: View, t: nat, th: Thread, h: nat, on: bool, holder: int, h': nat)
    requires TableOk(c, s, v) && t < |s.threads| && h < c.heads && h' < c.heads && h' != h
    requires s.threads[t].pc.Owner() ==> s.threads[t].pc.h == h
    requires th.built == s.threads[t].built && Bound(th) >= Bound(s.threads[t])
    ensures BuiltWithin(c, s.threads[t := th])
    ensures HeadOk(c, s.With(t, th).(latch := s.latch[h := on]), v.(holders := v.holders[h := holder]), h')
  {
    assert HeadOk(c, s, v, h');
    DoneFrame(c, s.threads, s.threads[t := th], h');
    ChainTaken(v.chains[h'], s.threads, t, th, Head(0), v.chains[h']);
  }

  /** Taking a free latch. */
  lemma TableTas(c: Config, s: State, v: View, t: nat, h: nat)
    requires TableOk(c, s, v) && t < |s.threads| && h < c.heads && !s.latch[h] && s.threads[t].pc == Idle
    ensures TableOk(c, s.With(t, s.threads[t].(pc := Holding(h))).(latch := s.latch[h := true]),
                    v.(holders := v.holders[h := t]))
  {
    var th := s.threads[t].(pc := Holding(h));
    var s', v' := s.With(t, th).(latch := s.latch[h := true]), v.(holders := v.holders[h := t]);
    assert HeadOk(c, s, v, h);
    DoneFrame(c, s.threads, s.threads[t := th], h);
    ChainTaken(v.chains[h], s.threads, t, th, Head(0), v.chains[h]);
    forall h' | 0 <= h' < c.heads
      ensures HeadOk(c, s', v', h')
    {
      if h' != h {
        OthersKeepLatch(c, s, v, t, th, h, true, t, h');
      }
    }
  }

  /** Releasing the latch. */
  lemma TableUnlock(c: Config, s: State, v: View, t: nat, h: nat)
    requires TableOk(c, s, v) && t < |s.threads| && h < c.heads && s.threads[t].pc == Stored(h)
    ensures TableOk(c, s.With(t, s.threads[t].(pc := Idle)).(latch := s.latch[h := false]),
                    v.(holders := v.holders[h := -1]))
  {
    var th := s.threads[t].(pc := Idle);
    var s', v' := s.With(t, th).(latch := s.latch[h := false]), v.(holders := v.holders[h := -1]);
    assert HeadOk(c, s, v, h);
    DoneFrame(c, s.threads, s.threads[t := th], h);
    ChainTaken(v.chains[h], s.threads, t, th, Head(0), v.chains[h]);
    forall h' | 0 <= h' < c.heads
      ensures HeadOk(c, s', v', h')
    {
      if h' != h {
        OthersKeepLatch(c, s, v, t, th, h, false, -1, h');
      }
    }
  }
}
