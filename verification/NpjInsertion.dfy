/** The invariant of the concurrent join, and that the steps of an insertion keep it. */
module NpjInsertion {
  import opened Gates
  import opened NpjJoin
  import opened NpjInvariant
  import opened NpjSafety

  // ---------------------------------------------------------------- counting keys

  lemma {:induction false} OccConcat(a: seq<Tuple>, b: seq<Tuple>, key: int)
    ensures Occ(a + b, key) == Occ(a, key) + Occ(b, key)
  {
    if b == [] {
      assert a + b == a;
    } else {
      OccConcat(a, b[..|b| - 1], key);
      assert (a + b)[..|a + b| - 1] == a + b[..|b| - 1];
    }
  }

  lemma {:induction false} OccPermuted(a: seq<Tuple>, b: seq<Tuple>, key: int)
    requires multiset(a) == multiset(b)
    ensures Occ(a, key) == Occ(b, key)
  {
    if a == [] {
      assert multiset(b) == multiset{};
      assert b == [];
    } else {
      var n, x := |a| - 1, a[|a| - 1];
      assert a == a[..n] + [x];
      assert multiset(a) == multiset(a[..n]) + multiset{x};
      assert x in multiset(a);
      var j :| 0 <= j < |b| && b[j] == x;
      var rest := b[..j] + b[j + 1..];
      assert b == (b[..j] + [x]) + b[j + 1..];
      assert multiset(b) == multiset(rest) + multiset{x};
      assert multiset(a[..n]) == multiset(a) - multiset{x} && multiset(rest) == multiset(b) - multiset{x};
      OccPermuted(a[..n], rest, key);
      OccConcat(b[..j], b[j + 1..], key);
      OccConcat(b[..j] + [x], b[j + 1..], key);
      OccConcat(b[..j], [x], key);
      OccConcat(a[..n], [x], key);
    }
  }

  function Concat(ss: seq<seq<Tuple>>): seq<Tuple> {
    if ss == [] then [] else Concat(ss[..|ss| - 1]) + ss[|ss| - 1]
  }

  /** The number of pairs of a tuple of `r` and one of the first `n` tuples of `s` with equal keys. */
  function Joined(r: seq<Tuple>, s: seq<Tuple>, n: nat): nat
    requires n <= |s|
  {
    if n == 0 then 0 else Joined(r, s, n - 1) + Occ(r, s[n - 1].key)
  }

  lemma {:induction false} BelongingConcat(c: Config, h: nat, a: seq<Tuple>, b: seq<Tuple>)
    ensures Belonging(c, h, a + b) == Belonging(c, h, a) + Belonging(c, h, b)
  {
    if b == [] {
      assert a + b == a;
    } else {
      BelongingConcat(c, h, a, b[..|b| - 1]);
      assert (a + b)[..|a + b| - 1] == a + b[..|b| - 1];
    }
  }

  lemma {:induction false} BelongingOcc(c: Config, s: seq<Tuple>, key: int)
    ensures Occ(Belonging(c, c.index(key), s), key) == Occ(s, key)
  {
    if s != [] {
      var n := |s| - 1;
      BelongingOcc(c, s[..n], key);
      var last := if c.index(s[n].key) == c.index(key) then [s[n]] else [];
      OccConcat(Belonging(c, c.index(key), s[..n]), last, key);
    }
  }

  /** When every thread has stored its slice, a chain holds all tuples that belong there. */
  lemma {:induction false} AllDone(c: Config, threads: seq<Thread>, h: nat, n: nat)
    requires BuiltWithin(c, threads) && n <= |threads|
    requires forall i | 0 <= i < |threads| :: threads[i].built == |c.rs[i]|
    ensures Sum(Parts(c, threads, h)[..n]) == multiset(Belonging(c, h, Concat(c.rs[..n])))
  {
    if n > 0 {
      AllDone(c, threads, h, n - 1);
      var parts, last := Parts(c, threads, h), c.rs[n - 1];
      assert parts[..n][..n - 1] == parts[..n - 1] && c.rs[..n][..n - 1] == c.rs[..n - 1];
      assert parts[n - 1] == multiset(Belonging(c, h, last)) by {
        assert last[..|last|] == last;
      }
      BelongingConcat(c, h, Concat(c.rs[..n - 1]), last);
    }
  }

  lemma {:induction false} FlatSnoc(mem: map<Ref, Cell>, chain: Chain, r: Ref)
    ensures Flat(mem, chain + [r], Null) == Flat(mem, chain, Null) + Filled(At(mem, r), false)
  {
    if chain == [] {
      FlatCons(mem, r, [], Null);
      assert [] + [r] == [r] + [];
    } else {
      FlatSnoc(mem, chain[1..], r);
      FlatCons(mem, chain[0], chain[1..] + [r], Null);
      assert chain + [r] == [chain[0]] + (chain[1..] + [r]);
    }
  }

  // ---------------------------------------------------------------- the invariant

  /** The thread has come to bucket `k` of the chain of its key and has counted what is before. */
  ghost predicate WalkAt(c: Config, mem: map<Ref, Cell>, chain: Chain, t: nat, th: Thread, k: nat)
    requires t < |c.ss| && th.probed < |c.ss[t]|
  {
    k < |chain| && th.pc == Walking(chain[k]) &&
    th.matches == Joined(Concat(c.rs), c.ss[t], th.probed) + Occ(Flat(mem, chain[..k], Null), c.ss[t][th.probed].key)
  }

  ghost predicate WalkOk(c: Config, s: State, v: View, t: nat, th: Thread)
    requires t < |c.ss| && th.probed <= |c.ss[t]|
  {
    if th.pc.Walking? then
      th.probed < |c.ss[t]| && c.index(c.ss[t][th.probed].key) < |v.chains| &&
      exists k :: WalkAt(c, s.mem, v.chains[c.index(c.ss[t][th.probed].key)], t, th, k)
    else
      th.matches == Joined(Concat(c.rs), c.ss[t], th.probed)
  }

  ghost predicate ThreadsOk(c: Config, s: State) {
    |s.threads| == |c.rs| == |c.ss| && forall i | 0 <= i < |s.threads| :: ThreadOk(c, i, s.threads[i])
  }

  /** The invariant: what it says is available wherever an index is named as Opened. */
  ghost predicate Inv(c: Config, s: State, v: View, g: nat) {
    && c.Valid() && |s.threads| == |c.rs| == |c.ss|
    && forall u {:trigger Opened(u)} | Opened(u) :: Holds(c, s, v, g)
  }

  ghost predicate Holds(c: Config, s: State, v: View, g: nat) {
    && ThreadsOk(c, s) && BarrierOk(s, g) && (Past(s.threads[0], 0) ==> s.ready)
    && (s.ready ==> TableOk(c, s, v))
    && (forall i | 0 <= i < |s.threads| :: WalkOk(c, s, v, i, s.threads[i]))
  }

  lemma InitKeeps(c: Config, v: View)
    requires c.Valid()
    ensures Inv(c, c.Start(), v, 0)
  {
    NoneWait(c.Start().threads);
  }

  // ---------------------------------------------------------------- steps of an insertion

  /** A thread that inserts finds the table ready and its chain in order. */
  lemma Inserting(c: Config, s: State, v: View, g: nat, t: nat)
    requires Inv(c, s, v, g) && t < |s.threads| && s.threads[t].pc.Owner()
    ensures g == c.build && s.ready && TableOk(c, s, v) && s.threads[t].pc.h < c.heads
    ensures v.holders[s.threads[t].pc.h] == t
    ensures
      var h := s.threads[t].pc.h;
      ChainOk(c, s.mem, v.chains[h], h, s.threads[t].pc, Done(c, s.threads, h)) && AllTaken(v.chains[h], s.threads)
    ensures ThreadOk(c, t, s.threads[t]) && forall i | 0 <= i < |s.threads| :: !s.threads[i].pc.Walking?
  {
    assert Opened(0);
    assert ThreadOk(c, t, s.threads[t]) && Eff(s.threads[0]) == Eff(s.threads[t]) == g;
    var h := s.threads[t].pc.h;
    assert HeadOk(c, s, v, h);
    forall i | 0 <= i < |s.threads|
      ensures !s.threads[i].pc.Walking?
    {
      assert ThreadOk(c, i, s.threads[i]);
    }
  }

  /** The thread `th` has replaced thread `t`, in the same round. */
  ghost predicate SameRound(th: Thread, th0: Thread) {
    th.status == th0.status == Running && th.round == th0.round
  }

  lemma BarrierStays(s: State, t: nat, th: Thread, g: nat)
    requires BarrierOk(s, g) && t < |s.threads| && SameRound(th, s.threads[t])
    ensures BarrierOk(s.With(t, th), g)
  {
    WaitingUpdate(s.threads, t, th);
  }

  /** By a step of its insertion thread `t` becomes `th`, bucket `r` becomes `cell`, and the chain becomes `chain`, all
      as it should be. */
  ghost predicate Fits(c: Config, s: State, v: View, t: nat, th: Thread, r: Ref, cell: Cell, chain: Chain) {
    && t < |s.threads| && s.threads[t].pc.Owner() && th.pc.Owner() && th.pc.h < |v.chains|
    && forall u {:trigger Opened(u)} | Opened(u) :: FitsNow(c, s, v, t, th, r, cell, chain)
  }

  ghost predicate FitsNow(c: Config, s: State, v: View, t: nat, th: Thread, r: Ref, cell: Cell, chain: Chain)
    requires t < |s.threads| && s.threads[t].pc.Owner() && th.pc.Owner() && th.pc.h < |v.chains|
  {
    var th0, h := s.threads[t], th.pc.h;
    && t < |c.rs| == |c.ss| && h == th0.pc.h && ThreadOk(c, t, th) && SameRound(th, th0)
    && th.matches == th0.matches && th.probed == th0.probed
    && Writable(s, v, t, h, r) && Bound(th) >= Bound(th0)
    && BuiltWithin(c, s.threads) && BuiltWithin(c, s.threads[t := th])
    && (forall h' | 0 <= h' < c.heads && h' != h :: Done(c, s.threads[t := th], h') == Done(c, s.threads, h'))
    && ChainOk(c, s.mem[r := cell], chain, h, th.pc, Done(c, s.threads[t := th], h))
    && (chain == v.chains[h] || (r.Over? && r.t == t && Bound(th0) <= r.n < Bound(th) &&
                                 |v.chains[h]| > 0 && chain == [v.chains[h][0], r] + v.chains[h][1..]))
  }

  lemma InsertKeeps(c: Config, s: State, v: View, g: nat, t: nat, th: Thread, r: Ref, cell: Cell, chain: Chain,
                    s': State, v': View)
    requires Inv(c, s, v, g) && Fits(c, s, v, t, th, r, cell, chain)
    requires s' == s.With(t, th).Write(r, cell) && v' == v.(chains := v.chains[th.pc.h := chain])
    ensures Inv(c, s', v', g)
  {
    InsertTable(c, s, v, g, t, th, r, cell, chain, s', v');
    assert Opened(0);
    BarrierStays(s, t, th, g);
    Inserting(c, s, v, g, t);
    OneThread(c, s, v, t, th, s', v');
  }

  lemma SameChains(c: Config, s: State, v: View, g: nat, t: nat, th: Thread, r: Ref, cell: Cell, h: nat, s': State)
    requires Inv(c, s, v, g) && th.pc.Owner() && h == th.pc.h < |v.chains| && Fits(c, s, v, t, th, r, cell, v.chains[h])
    requires s' == s.With(t, th).Write(r, cell)
    ensures Inv(c, s', v, g)
  {
    assert v.chains[h := v.chains[h]] == v.chains;
    InsertKeeps(c, s, v, g, t, th, r, cell, v.chains[h], s', v);
  }

  lemma InsertTable(c: Config, s: State, v: View, g: nat, t: nat, th: Thread, r: Ref, cell: Cell, chain: Chain,
                    s': State, v': View)
    requires Inv(c, s, v, g) && Fits(c, s, v, t, th, r, cell, chain)
    requires s' == s.With(t, th).Write(r, cell) && v' == v.(chains := v.chains[th.pc.h := chain])
    ensures TableOk(c, s', v')
  {
    assert Opened(0);
    Inserting(c, s, v, g, t);
    forall i | 0 <= i < |s.threads|
      ensures LinksOwn(i, s.threads[i])
    {
      assert ThreadOk(c, i, s.threads[i]);
    }
    TableStep(c, s, v, t, th, th.pc.h, r, cell, chain);
  }

  /** A thread has changed, but not what it has probed, and it does not probe. */
  lemma OneThread(c: Config, s: State, v: View, t: nat, th: Thread, s': State, v': View)
    requires ThreadsOk(c, s) && t < |s.threads| && ThreadOk(c, t, th) && s'.threads == s.threads[t := th]
    requires forall i | 0 <= i < |s.threads| :: WalkOk(c, s, v, i, s.threads[i]) && !s.threads[i].pc.Walking?
    requires !th.pc.Walking? && th.matches == s.threads[t].matches && th.probed == s.threads[t].probed
    ensures ThreadsOk(c, s') && forall i | 0 <= i < |s'.threads| :: WalkOk(c, s', v', i, s'.threads[i])
  {
    forall i | 0 <= i < |s.threads|
      ensures ThreadOk(c, i, s'.threads[i]) && WalkOk(c, s', v', i, s'.threads[i])
    {
      assert ThreadOk(c, i, s.threads[i]) && WalkOk(c, s, v, i, s.threads[i]);
    }
  }

  /** Nothing has been stored by this step. */
  lemma SameDone(c: Config, s: State, t: nat, th: Thread)
    requires BuiltWithin(c, s.threads) && t < |s.threads| && th.built == s.threads[t].built
    ensures BuiltWithin(c, s.threads[t := th])
    ensures forall h | 0 <= h < c.heads :: Done(c, s.threads[t := th], h) == Done(c, s.threads, h)
  {
    forall h | 0 <= h < c.heads
      ensures Done(c, s.threads[t := th], h) == Done(c, s.threads, h)
    {
      DoneFrame(c, s.threads, s.threads[t := th], h);
    }
  }

  /** A step that stores no tuple. */
  lemma PlainFits(c: Config, s: State, v: View, t: nat, th: Thread, r: Ref, cell: Cell, chain: Chain)
    requires t < |s.threads| == |c.rs| == |c.ss| && BuiltWithin(c, s.threads) && s.threads[t].pc.Owner()
    requires th.pc.Owner()
    requires th.pc.h == s.threads[t].pc.h < c.heads == |v.chains| && ThreadOk(c, t, th)
    requires s.threads[t].status == Running && th == s.threads[t].(pc := th.pc, used := th.used)
    requires Writable(s, v, t, th.pc.h, r) && Bound(th) >= Bound(s.threads[t])
    requires ChainOk(c, s.mem[r := cell], chain, th.pc.h, th.pc, Done(c, s.threads, th.pc.h))
    requires chain == v.chains[th.pc.h] || (r.Over? && r.t == t && Bound(s.threads[t]) <= r.n < Bound(th) &&
               |v.chains[th.pc.h]| > 0 && chain == [v.chains[th.pc.h][0], r] + v.chains[th.pc.h][1..])
    ensures Fits(c, s, v, t, th, r, cell, chain)
  {
    SameDone(c, s, t, th);
  }

  lemma LoadKeeps(c: Config, s: State, v: View, g: nat, t: nat, s': State)
    requires Inv(c, s, v, g) && c.Steps(s, t, Load, s')
    ensures c.Accessible(s, t, Load) && Inv(c, s', v, g)
  {
    Inserting(c, s, v, g, t);
    var h := s.threads[t].pc.h;
    LoadStep(c, s.mem, v.chains[h], h, Done(c, s.threads, h));
    var th := s.threads[t].(pc := Loaded(h, s.mem[Head(h)].next));
    assert s.mem[Head(h) := s.mem[Head(h)]] == s.mem;
    PlainFits(c, s, v, t, th, Head(h), s.mem[Head(h)], v.chains[h]);
    SameChains(c, s, v, g, t, th, Head(h), s.mem[Head(h)], h, s');
  }

  /** A thread that has loaded the link of its bucket. */
  ghost predicate Claiming(c: Config, s: State, v: View, t: nat, h: nat, nxt: Link) {
    && t < |s.threads| && s.threads[t].pc == Loaded(h, nxt) && h < |v.chains|
    && v.chains[h] != [] && v.chains[h][0] == Head(h) && Head(h) in s.mem
    && if |v.chains[h]| > 1 then nxt == To(v.chains[h][1]) && v.chains[h][1] in s.mem else nxt == Null
  }

  lemma ClaimReady(c: Config, s: State, v: View, g: nat, t: nat)
    requires Inv(c, s, v, g) && t < |s.threads| && s.threads[t].pc.Loaded?
    ensures Claiming(c, s, v, t, s.threads[t].pc.h, s.threads[t].pc.nxt)
  {
    Inserting(c, s, v, g, t);
    var h := s.threads[t].pc.h;
    LoadedLink(c, s.mem, v.chains[h], h, s.threads[t].pc.nxt, Done(c, s.threads, h));
  }

  lemma ClaimKeeps(c: Config, s: State, v: View, g: nat, t: nat, garbage: Cell, s': State)
    requires Inv(c, s, v, g) && c.Steps(s, t, Claim(garbage), s')
    ensures c.Accessible(s, t, Claim(garbage)) && Inv(c, s', v, g)
  {
    ClaimReady(c, s, v, g, t);
    var h, nxt := s.threads[t].pc.h, s.threads[t].pc.nxt;
    if s.mem[Head(h)].count != c.capacity {
      ClaimExisting(c, s, v, g, t, h, nxt, 0, s');
    } else if nxt.To? && s.mem[nxt.ref].count != c.capacity {
      ClaimExisting(c, s, v, g, t, h, nxt, 1, s');
    } else {
      ClaimFresh(c, s, v, g, t, h, nxt, garbage, s');
    }
  }

  lemma ClaimExisting(c: Config, s: State, v: View, g: nat, t: nat, h: nat, nxt: Link, j: nat, s': State)
    requires Inv(c, s, v, g) && Claiming(c, s, v, t, h, nxt) && j <= 1 && j < |v.chains[h]| && v.chains[h][j] in s.mem
    requires s.mem[v.chains[h][j]].count != c.capacity
    requires j == 1 ==> s.mem[Head(h)].count == c.capacity
    requires
      var r := v.chains[h][j];
      var cell := s.mem[r];
      s' == s.With(t, s.threads[t].(pc := Reserved(h, r, cell.count))).Write(r, cell.(count := cell.count + 1))
    ensures Inv(c, s', v, g)
  {
    Inserting(c, s, v, g, t);
    var r := v.chains[h][j];
    var cell := s.mem[r];
    var th, cell' := s.threads[t].(pc := Reserved(h, r, cell.count)), cell.(count := cell.count + 1);
    ExistingFits(c, s, v, t, h, nxt, j, th, r, cell');
    SameChains(c, s, v, g, t, th, r, cell', h, s');
  }

  lemma ExistingFits(c: Config, s: State, v: View, t: nat, h: nat, nxt: Link, j: nat, th: Thread, r: Ref, cell: Cell)
    requires |s.threads| == |c.rs| == |c.ss| && Claiming(c, s, v, t, h, nxt) && h < c.heads == |v.chains|
    requires BuiltWithin(c, s.threads) && ThreadOk(c, t, s.threads[t])
    requires ChainOk(c, s.mem, v.chains[h], h, Loaded(h, nxt), Done(c, s.threads, h))
    requires j <= 1 && j < |v.chains[h]| && r == v.chains[h][j] && r in s.mem && s.mem[r].count != c.capacity
    requires j == 1 ==> s.mem[Head(h)].count == c.capacity
    requires th == s.threads[t].(pc := Reserved(h, r, s.mem[r].count))
    requires cell == s.mem[r].(count := s.mem[r].count + 1)
    ensures Fits(c, s, v, t, th, r, cell, v.chains[h])
  {
    ReserveStep(c, s.mem, v.chains[h], h, nxt, Done(c, s.threads, h), j);
    PlainFits(c, s, v, t, th, r, cell, v.chains[h]);
  }

  lemma ClaimFresh(c: Config, s: State, v: View, g: nat, t: nat, h: nat, nxt: Link, garbage: Cell, s': State)
    requires Inv(c, s, v, g) && Claiming(c, s, v, t, h, nxt) && |garbage.tuples| == c.capacity
    requires s.mem[Head(h)].count == c.capacity && (nxt.To? ==> s.mem[nxt.ref].count == c.capacity)
    requires
      var th := s.threads[t];
      var b := Over(t, th.used);
      s' == s.With(t, th.(pc := Linking(h, nxt, b, 0), used := th.used + 1)).Write(b, garbage)
    ensures Inv(c, s', v, g)
  {
    Inserting(c, s, v, g, t);
    var th := s.threads[t];
    var chain, b := v.chains[h], Over(t, th.used);
    forall k | 0 <= k < |chain|
      ensures chain[k] != b
    {
      assert Taken(chain[k], s.threads);
    }
    FreshStep(c, s.mem, chain, h, nxt, Done(c, s.threads, h), b, garbage);
    var th' := th.(pc := Linking(h, nxt, b, 0), used := th.used + 1);
    PlainFits(c, s, v, t, th', b, garbage, chain);
    SameChains(c, s, v, g, t, th', b, garbage, h, s');
  }

  lemma LinkHeadKeeps(c: Config, s: State, v: View, g: nat, t: nat, s': State)
    requires Inv(c, s, v, g) && c.Steps(s, t, LinkHead, s')
    ensures c.Accessible(s, t, LinkHead) && Inv(c, s', v, g)
  {
    Inserting(c, s, v, g, t);
    var th := s.threads[t];
    var h, chain := th.pc.h, v.chains[th.pc.h];
    LinkHeadStep(c, s.mem, chain, h, th.pc.nxt, Done(c, s.threads, h), th.pc.b);
    var th' := th.(pc := Linking(h, th.pc.nxt, th.pc.b, 1));
    PlainFits(c, s, v, t, th', Head(h), s.mem[Head(h)].(next := To(th.pc.b)), chain);
    SameChains(c, s, v, g, t, th', Head(h), s.mem[Head(h)].(next := To(th.pc.b)), h, s');
  }

  lemma LinkNextKeeps(c: Config, s: State, v: View, g: nat, t: nat, s': State)
    requires Inv(c, s, v, g) && c.Steps(s, t, LinkNext, s')
    ensures c.Accessible(s, t, LinkNext) && Inv(c, s', v, g)
  {
    Inserting(c, s, v, g, t);
    var th := s.threads[t];
    var h, chain, b := th.pc.h, v.chains[th.pc.h], th.pc.b;
    LinkNextStep(c, s.mem, chain, h, th.pc.nxt, Done(c, s.threads, h), b);
    var th' := th.(pc := Linking(h, th.pc.nxt, b, 2));
    PlainFits(c, s, v, t, th', b, s.mem[b].(next := th.pc.nxt), chain);
    SameChains(c, s, v, g, t, th', b, s.mem[b].(next := th.pc.nxt), h, s');
  }

  lemma SetCountKeeps(c: Config, s: State, v: View, g: nat, t: nat, s': State) returns (v': View)
    requires Inv(c, s, v, g) && c.Steps(s, t, SetCount, s')
    ensures c.Accessible(s, t, SetCount) && Inv(c, s', v', g)
  {
    Inserting(c, s, v, g, t);
    var th := s.threads[t];
    var h, chain, b := th.pc.h, v.chains[th.pc.h], th.pc.b;
    SetCountStep(c, s.mem, chain, h, th.pc.nxt, Done(c, s.threads, h), b);
    var th', chain' := th.(pc := Reserved(h, b, 0)), [chain[0], b] + chain[1..];
    PlainFits(c, s, v, t, th', b, s.mem[b].(count := 1), chain');
    v' := v.(chains := v.chains[h := chain']);
    InsertKeeps(c, s, v, g, t, th', b, s.mem[b].(count := 1), chain', s', v');
  }

  /** A stored tuple counts for its own bucket only. */
  lemma StoreDone(c: Config, s: State, t: nat, th: Thread, h: nat)
    requires BuiltWithin(c, s.threads) && t < |s.threads| && th.built == s.threads[t].built + 1 <= |c.rs[t]|
    requires h == c.index(c.rs[t][s.threads[t].built].key)
    ensures BuiltWithin(c, s.threads[t := th])
    ensures forall h' | 0 <= h' < c.heads && h' != h :: Done(c, s.threads[t := th], h') == Done(c, s.threads, h')
    ensures Done(c, s.threads[t := th], h) == Done(c, s.threads, h) + multiset{c.rs[t][s.threads[t].built]}
  {
    DoneMore(c, s.threads, t, th, h);
    forall h' | 0 <= h' < c.heads && h' != h
      ensures Done(c, s.threads[t := th], h') == Done(c, s.threads, h')
    {
      DoneMore(c, s.threads, t, th, h');
    }
  }

  lemma StoreKeeps(c: Config, s: State, v: View, g: nat, t: nat, s': State)
    requires Inv(c, s, v, g) && c.Steps(s, t, Store, s')
    ensures c.Accessible(s, t, Store) && Inv(c, s', v, g)
  {
    Inserting(c, s, v, g, t);
    var th := s.threads[t];
    var h, dest, x := th.pc.h, th.pc.dest, c.rs[t][th.built];
    StoreStep(c, s.mem, v.chains[h], h, dest, th.pc.slot, x, Done(c, s.threads, h));
    StoreInserts(c, s, v, g, t, h, dest, s.mem[dest].(tuples := s.mem[dest].tuples[th.pc.slot := x]), s');
  }

  lemma StoreInserts(c: Config, s: State, v: View, g: nat, t: nat, h: nat, dest: Ref, cell: Cell, s': State)
    requires Inv(c, s, v, g) && t < |s.threads| && s.threads[t].pc.Reserved? && h == s.threads[t].pc.h < |v.chains|
    requires dest in v.chains[h] && BuiltWithin(c, s.threads) && s.threads[t].built < |c.rs[t]|
    requires
      var done := Done(c, s.threads, h) + multiset{c.rs[t][s.threads[t].built]};
      ChainOk(c, s.mem[dest := cell], v.chains[h], h, Stored(h), done)
    requires s' == s.With(t, s.threads[t].(pc := Stored(h), built := s.threads[t].built + 1)).Write(dest, cell)
    ensures Inv(c, s', v, g)
  {
    Inserting(c, s, v, g, t);
    StoreFits(c, s, v, t, h, dest, cell);
    var th := s.threads[t].(pc := Stored(h), built := s.threads[t].built + 1);
    SameChains(c, s, v, g, t, th, dest, cell, h, s');
  }

  lemma StoreFits(c: Config, s: State, v: View, t: nat, h: nat, dest: Ref, cell: Cell)
    requires t < |s.threads| == |c.rs| == |c.ss| && s.threads[t].pc.Reserved? && h == s.threads[t].pc.h < |v.chains|
    requires dest in v.chains[h] && BuiltWithin(c, s.threads) && ThreadOk(c, t, s.threads[t])
    requires ChainOk(c, s.mem[dest := cell], v.chains[h], h, Stored(h),
                     Done(c, s.threads, h) + multiset{c.rs[t][s.threads[t].built]})
    ensures Fits(c, s, v, t, s.threads[t].(pc := Stored(h), built := s.threads[t].built + 1), dest, cell, v.chains[h])
  {
    StoreDone(c, s, t, s.threads[t].(pc := Stored(h), built := s.threads[t].built + 1), h);
  }
}
