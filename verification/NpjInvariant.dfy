/** What holds in every reachable state of the join: who holds which latch, what each chain of buckets looks like and
    contains, and which round the threads are in. */
module NpjInvariant {
  import opened Gates
  import opened NpjJoin

  type Chain = seq<Ref>

  // ---------------------------------------------------------------- contents of a chain

  ghost function At(mem: map<Ref, Cell>, r: Ref): Cell {
    if r in mem then mem[r] else Cell(0, Null, [])
  }

  /** The tuples of a bucket; the last slot does not count if it is reserved but not yet written. */
  ghost function Filled(cell: Cell, hole: bool): seq<Tuple> {
    var n := if hole then cell.count - 1 else cell.count;
    if 0 <= n <= |cell.tuples| then cell.tuples[..n] else []
  }

  ghost function Flat(mem: map<Ref, Cell>, chain: Chain, hole: Link): seq<Tuple> {
    if chain == [] then [] else Filled(At(mem, chain[0]), hole == To(chain[0])) + Flat(mem, chain[1..], hole)
  }

  lemma {:induction false} FlatFrame(mem: map<Ref, Cell>, chain: Chain, hole: Link, mem': map<Ref, Cell>, hole': Link)
    requires forall k | 0 <= k < |chain| ::
      Filled(At(mem', chain[k]), hole' == To(chain[k])) == Filled(At(mem, chain[k]), hole == To(chain[k]))
    ensures Flat(mem', chain, hole') == Flat(mem, chain, hole)
  {
    if chain != [] {
      FlatFrame(mem, chain[1..], hole, mem', hole');
    }
  }

  /** One bucket gains a tuple. */
  lemma {:induction false} FlatGains(mem: map<Ref, Cell>, chain: Chain, hole: Link, mem': map<Ref, Cell>, hole': Link,
                                     j: nat, x: Tuple)
    requires j < |chain|
    requires forall k | 0 <= k < |chain| && k != j ::
      Filled(At(mem', chain[k]), hole' == To(chain[k])) == Filled(At(mem, chain[k]), hole == To(chain[k]))
    requires Filled(At(mem', chain[j]), hole' == To(chain[j])) == Filled(At(mem, chain[j]), hole == To(chain[j])) + [x]
    ensures multiset(Flat(mem', chain, hole')) == multiset(Flat(mem, chain, hole)) + multiset{x}
  {
    if j == 0 {
      FlatFrame(mem, chain[1..], hole, mem', hole');
      Middle(Filled(At(mem, chain[0]), hole == To(chain[0])), x, Flat(mem, chain[1..], hole));
    } else {
      FlatGains(mem, chain[1..], hole, mem', hole', j - 1, x);
    }
  }

  lemma Middle(a: seq<Tuple>, x: Tuple, b: seq<Tuple>)
    ensures multiset((a + [x]) + b) == multiset(a + b) + multiset{x}
  {
  }

  // ---------------------------------------------------------------- what the threads have done

  /** The tuples of `s` that belong to bucket `h`. */
  ghost function Belonging(c: Config, h: nat, s: seq<Tuple>): seq<Tuple> {
    if s == [] then []
    else Belonging(c, h, s[..|s| - 1]) + if c.index(s[|s| - 1].key) == h then [s[|s| - 1]] else []
  }

  ghost function Sum(parts: seq<multiset<Tuple>>): multiset<Tuple> {
    if parts == [] then multiset{} else Sum(parts[..|parts| - 1]) + parts[|parts| - 1]
  }

  lemma {:induction false} SumMore(parts: seq<multiset<Tuple>>, t: nat, x: multiset<Tuple>)
    requires t < |parts|
    ensures Sum(parts[t := parts[t] + x]) == Sum(parts) + x
  {
    var n := |parts| - 1;
    if t < n {
      SumMore(parts[..n], t, x);
      assert parts[t := parts[t] + x][..n] == parts[..n][t := parts[t] + x];
    } else {
      assert parts[t := parts[t] + x][..n] == parts[..n];
    }
  }

  /** What the threads have stored in the chain of bucket `h`. */
  ghost function Done(c: Config, threads: seq<Thread>, h: nat): multiset<Tuple>
    requires BuiltWithin(c, threads)
  {
    Sum(Parts(c, threads, h))
  }

  ghost predicate BuiltWithin(c: Config, threads: seq<Thread>) {
    |threads| == |c.rs| && forall i | 0 <= i < |threads| :: threads[i].built <= |c.rs[i]|
  }

  ghost function Parts(c: Config, threads: seq<Thread>, h: nat): seq<multiset<Tuple>>
    requires BuiltWithin(c, threads)
  {
    seq(|threads|, i requires 0 <= i < |threads| => Part(c, h, c.rs[i], threads[i].built))
  }

  ghost function Part(c: Config, h: nat, s: seq<Tuple>, k: nat): multiset<Tuple>
    requires k <= |s|
  {
    multiset(Belonging(c, h, s[..k]))
  }

  lemma DoneFrame(c: Config, threads: seq<Thread>, threads': seq<Thread>, h: nat)
    requires BuiltWithin(c, threads) && |threads| == |threads'|
    requires forall i | 0 <= i < |threads| :: threads'[i].built == threads[i].built
    ensures BuiltWithin(c, threads') && Done(c, threads', h) == Done(c, threads, h)
  {
    assert Parts(c, threads', h) == Parts(c, threads, h);
  }

  lemma DoneMore(c: Config, threads: seq<Thread>, t: nat, th: Thread, h: nat)
    requires BuiltWithin(c, threads) && t < |threads| && th.built == threads[t].built + 1 <= |c.rs[t]|
    ensures BuiltWithin(c, threads[t := th])
    ensures Done(c, threads[t := th], h) == Done(c, threads, h) + Own(c, h, c.rs[t][threads[t].built])
  {
    PartMore(c, h, c.rs[t], threads[t].built);
    var parts, x := Parts(c, threads, h), Own(c, h, c.rs[t][threads[t].built]);
    SumMore(parts, t, x);
    assert Parts(c, threads[t := th], h) == parts[t := parts[t] + x];
  }

  /** A tuple, if it belongs to bucket `h`. */
  ghost function Own(c: Config, h: nat, x: Tuple): multiset<Tuple> {
    if c.index(x.key) == h then multiset{x} else multiset{}
  }

  lemma PartMore(c: Config, h: nat, s: seq<Tuple>, k: nat)
    requires k < |s|
    ensures Part(c, h, s, k + 1) == Part(c, h, s, k) + Own(c, h, s[k])
  {
    assert s[..k + 1][..k] == s[..k];
  }

  // ---------------------------------------------------------------- a chain

  ghost function NextOf(chain: Chain, k: nat): Link {
    if k + 1 < |chain| then To(chain[k + 1]) else Null
  }

  /** The buckets of a chain exist and are linked in order. While a new bucket is being linked in behind the first one,
      only the link of the first one may differ. */
  ghost predicate Linked(c: Config, mem: map<Ref, Cell>, chain: Chain, h: nat, pc: Pc) {
    && chain != [] && chain[0] == Head(h)
    && (forall k | 0 <= k < |chain| :: chain[k] in mem && |mem[chain[k]].tuples| == c.capacity)
    && (forall k | 1 <= k < |chain| :: chain[k].Over? && mem[chain[k]].next == NextOf(chain, k))
    && (forall j, k | 0 <= j < k < |chain| :: chain[j] != chain[k])
    && mem[chain[0]].next == (if pc.Linking? && pc.stage > 0 then To(pc.b) else NextOf(chain, 0))
  }

  /** All buckets are full except possibly the first one or the first overflow bucket, which is not empty. */
  ghost predicate WellFilled(c: Config, mem: map<Ref, Cell>, chain: Chain) {
    && (forall k | 0 <= k < |chain| :: At(mem, chain[k]).count <= c.capacity)
    && (|chain| > 1 ==> At(mem, chain[0]).count == c.capacity && At(mem, chain[1]).count > 0)
    && (forall k | 2 <= k < |chain| :: At(mem, chain[k]).count == c.capacity)
    && (chain != [] ==> Zeroed(At(mem, chain[0])))
  }

  /** The unused slots of the buckets of the table are as they were allocated. */
  ghost predicate Zeroed(cell: Cell) {
    forall j | cell.count <= j < |cell.tuples| :: cell.tuples[j].key == 0
  }

  /** What the thread that holds the latch knows of the chain. */
  ghost predicate Known(c: Config, mem: map<Ref, Cell>, chain: Chain, pc: Pc)
    requires chain != []
  {
    match pc
    case Loaded(_, nxt) => nxt == NextOf(chain, 0)
    case Linking(_, nxt, b, stage) =>
      && nxt == NextOf(chain, 0) && At(mem, chain[0]).count == c.capacity
      && (|chain| > 1 ==> At(mem, chain[1]).count == c.capacity)
      && b.Over? && b !in chain && b in mem && |mem[b].tuples| == c.capacity
      && stage <= 2 && (stage == 2 ==> mem[b].next == nxt)
    case Reserved(_, dest, slot) => dest in chain && At(mem, dest).count == slot + 1
    case _ => true
  }

  ghost predicate Shaped(c: Config, mem: map<Ref, Cell>, chain: Chain, h: nat, pc: Pc) {
    Linked(c, mem, chain, h, pc) && WellFilled(c, mem, chain) && Known(c, mem, chain, pc)
  }

  /** The chain is in order and contains what has been done. What this says is available wherever an index is named as
      Looked. */
  ghost predicate ChainOk(c: Config, mem: map<Ref, Cell>, chain: Chain, h: nat, pc: Pc, done: multiset<Tuple>) {
    && chain != [] && chain[0] == Head(h) && Head(h) in mem
    && forall u {:trigger Looked(u)} | Looked(u) ::
         Shaped(c, mem, chain, h, pc) && multiset(Flat(mem, chain, pc.Hole())) == done
  }

  /** A write to a bucket that is neither in the chain nor being linked to it. */
  lemma ChainFrame(c: Config, mem: map<Ref, Cell>, r: Ref, cell: Cell, chain: Chain, h: nat, pc: Pc,
                   done: multiset<Tuple>)
    requires ChainOk(c, mem, chain, h, pc, done)
    requires (forall k | 0 <= k < |chain| :: chain[k] != r) && (pc.Linking? ==> pc.b != r)
    ensures ChainOk(c, mem[r := cell], chain, h, pc, done)
  {
    assert Looked(0);
    ShapeFrame(c, mem, r, cell, chain, h, pc);
    FlatFrame(mem, chain, pc.Hole(), mem[r := cell], pc.Hole());
  }

  lemma ShapeFrame(c: Config, mem: map<Ref, Cell>, r: Ref, cell: Cell, chain: Chain, h: nat, pc: Pc)
    requires Shaped(c, mem, chain, h, pc)
    requires (forall k | 0 <= k < |chain| :: chain[k] != r) && (pc.Linking? ==> pc.b != r)
    ensures Shaped(c, mem[r := cell], chain, h, pc)
  {
    assert Linked(c, mem[r := cell], chain, h, pc);
  }

  // ---------------------------------------------------------------- the steps of an insertion, seen from its chain

  lemma LoadStep(c: Config, mem: map<Ref, Cell>, chain: Chain, h: nat, done: multiset<Tuple>)
    requires ChainOk(c, mem, chain, h, Holding(h), done)
    ensures Head(h) in mem && ChainOk(c, mem, chain, h, Loaded(h, mem[Head(h)].next), done)
  {
    assert Looked(0);
  }

  /** What was loaded is the second bucket, if there is one. */
  lemma LoadedLink(c: Config, mem: map<Ref, Cell>, chain: Chain, h: nat, nxt: Link, done: multiset<Tuple>)
    requires ChainOk(c, mem, chain, h, Loaded(h, nxt), done)
    ensures if |chain| > 1 then nxt == To(chain[1]) && chain[1] in mem else nxt == Null
  {
    assert Looked(0);
  }

  /** Reserving the next slot of bucket `j`, the first one or, if that is full, the second one. */
  lemma ReserveStep(c: Config, mem: map<Ref, Cell>, chain: Chain, h: nat, nxt: Link, done: multiset<Tuple>, j: nat)
    requires ChainOk(c, mem, chain, h, Loaded(h, nxt), done) && j < |chain| && j <= 1 && chain[j] in mem
    requires mem[chain[j]].count != c.capacity && (j == 1 ==> mem[chain[0]].count == c.capacity)
    ensures
      var cell := mem[chain[j]];
      ChainOk(c, mem[chain[j] := cell.(count := cell.count + 1)], chain, h, Reserved(h, chain[j], cell.count), done)
  {
    assert Looked(0);
    var cell := mem[chain[j]];
    ReserveShape(c, mem, chain, h, nxt, j);
    ReserveContents(c, mem, chain, chain[j]);
  }

  lemma ReserveShape(c: Config, mem: map<Ref, Cell>, chain: Chain, h: nat, nxt: Link, j: nat)
    requires Shaped(c, mem, chain, h, Loaded(h, nxt)) && j < |chain| && j <= 1
    requires mem[chain[j]].count != c.capacity && (j == 1 ==> mem[chain[0]].count == c.capacity)
    ensures
      var cell := mem[chain[j]];
      Shaped(c, mem[chain[j] := cell.(count := cell.count + 1)], chain, h, Reserved(h, chain[j], cell.count))
  {
  }

  /** The reserved slot does not count yet. */
  lemma ReserveContents(c: Config, mem: map<Ref, Cell>, chain: Chain, dest: Ref)
    requires dest in mem && mem[dest].count < |mem[dest].tuples|
    ensures Flat(mem[dest := mem[dest].(count := mem[dest].count + 1)], chain, To(dest)) == Flat(mem, chain, Null)
  {
    var cell := mem[dest];
    var mem' := mem[dest := cell.(count := cell.count + 1)];
    assert Filled(mem'[dest], true) == Filled(cell, false);
    FlatFrame(mem, chain, Null, mem', To(dest));
  }

  lemma FreshStep(c: Config, mem: map<Ref, Cell>, chain: Chain, h: nat, nxt: Link, done: multiset<Tuple>, b: Ref,
                  garbage: Cell)
    requires ChainOk(c, mem, chain, h, Loaded(h, nxt), done) && b.Over? && b !in chain && |garbage.tuples| == c.capacity
    requires At(mem, chain[0]).count == c.capacity && (|chain| > 1 ==> At(mem, chain[1]).count == c.capacity)
    ensures ChainOk(c, mem[b := garbage], chain, h, Linking(h, nxt, b, 0), done)
  {
    assert Looked(0);
    ChainFrame(c, mem, b, garbage, chain, h, Loaded(h, nxt), done);
  }

  lemma LinkHeadStep(c: Config, mem: map<Ref, Cell>, chain: Chain, h: nat, nxt: Link, done: multiset<Tuple>, b: Ref)
    requires ChainOk(c, mem, chain, h, Linking(h, nxt, b, 0), done)
    ensures Head(h) in mem
    ensures ChainOk(c, mem[Head(h) := mem[Head(h)].(next := To(b))], chain, h, Linking(h, nxt, b, 1), done)
  {
    assert Looked(0);
    var mem' := mem[Head(h) := mem[Head(h)].(next := To(b))];
    LinkHeadShape(c, mem, mem', chain, h, nxt, b);
    FlatFrame(mem, chain, Null, mem', Null);
  }

  lemma LinkHeadShape(c: Config, mem: map<Ref, Cell>, mem': map<Ref, Cell>, chain: Chain, h: nat, nxt: Link, b: Ref)
    requires Shaped(c, mem, chain, h, Linking(h, nxt, b, 0))
    requires Head(h) in mem && mem' == mem[Head(h) := mem[Head(h)].(next := To(b))]
    ensures Shaped(c, mem', chain, h, Linking(h, nxt, b, 1))
  {
  }

  lemma LinkNextStep(c: Config, mem: map<Ref, Cell>, chain: Chain, h: nat, nxt: Link, done: multiset<Tuple>, b: Ref)
    requires ChainOk(c, mem, chain, h, Linking(h, nxt, b, 1), done)
    ensures b in mem && ChainOk(c, mem[b := mem[b].(next := nxt)], chain, h, Linking(h, nxt, b, 2), done)
  {
    assert Looked(0);
    FlatFrame(mem, chain, Null, mem[b := mem[b].(next := nxt)], Null);
  }

  /** With its count set, the new bucket is the second one of the chain. */
  lemma SetCountStep(c: Config, mem: map<Ref, Cell>, chain: Chain, h: nat, nxt: Link, done: multiset<Tuple>, b: Ref)
    requires c.capacity > 0 && ChainOk(c, mem, chain, h, Linking(h, nxt, b, 2), done)
    ensures b in mem
    ensures ChainOk(c, mem[b := mem[b].(count := 1)], [chain[0], b] + chain[1..], h, Reserved(h, b, 0), done)
  {
    assert Looked(0);
    var chain', rest := [chain[0], b] + chain[1..], chain[1..];
    SetCountShape(c, mem, chain, h, nxt, b, chain');
    assert forall k | 0 <= k < |rest| :: rest[k] == chain[k + 1];
    SecondIsEmpty(mem, chain[0], rest, b);
    assert chain == [chain[0]] + rest;
  }

  lemma SecondIsEmpty(mem: map<Ref, Cell>, first: Ref, rest: Chain, b: Ref)
    requires b in mem && b != first && forall k | 0 <= k < |rest| :: rest[k] != b
    ensures Flat(mem[b := mem[b].(count := 1)], [first, b] + rest, To(b)) == Flat(mem, [first] + rest, Null)
  {
    var mem' := mem[b := mem[b].(count := 1)];
    NewIsEmpty(mem, rest, b);
    FlatCons(mem, first, rest, Null);
    FlatCons(mem', first, [b] + rest, To(b));
    assert [first, b] + rest == [first] + ([b] + rest);
  }

  lemma NewIsEmpty(mem: map<Ref, Cell>, rest: Chain, b: Ref)
    requires b in mem && forall k | 0 <= k < |rest| :: rest[k] != b
    ensures Flat(mem[b := mem[b].(count := 1)], [b] + rest, To(b)) == Flat(mem, rest, Null)
  {
    var mem' := mem[b := mem[b].(count := 1)];
    FlatFrame(mem, rest, Null, mem', To(b));
    FlatCons(mem', b, rest, To(b));
    assert Filled(At(mem', b), true) == [];
  }

  lemma FlatCons(mem: map<Ref, Cell>, first: Ref, rest: Chain, hole: Link)
    ensures Flat(mem, [first] + rest, hole) == Filled(At(mem, first), hole == To(first)) + Flat(mem, rest, hole)
  {
    assert ([first] + rest)[1..] == rest;
  }

  lemma SetCountShape(c: Config, mem: map<Ref, Cell>, chain: Chain, h: nat, nxt: Link, b: Ref, chain': Chain)
    requires c.capacity > 0 && Shaped(c, mem, chain, h, Linking(h, nxt, b, 2))
    requires chain' == [chain[0], b] + chain[1..]
    ensures b in mem && Shaped(c, mem[b := mem[b].(count := 1)], chain', h, Reserved(h, b, 0))
  {
    var mem' := mem[b := mem[b].(count := 1)];
    forall k {:trigger chain'[k]} | 2 <= k < |chain'|
      ensures chain'[k] == chain[k - 1] != b && NextOf(chain', k) == NextOf(chain, k - 1)
    {
    }
    assert chain'[1] == b && b in chain';
    assert Linked(c, mem', chain', h, Reserved(h, b, 0));
  }

  lemma StoreStep(c: Config, mem: map<Ref, Cell>, chain: Chain, h: nat, dest: Ref, slot: nat, x: Tuple,
                  done: multiset<Tuple>)
    requires ChainOk(c, mem, chain, h, Reserved(h, dest, slot), done)
    ensures dest in mem && slot < |mem[dest].tuples| && dest in chain
    ensures ChainOk(c, mem[dest := mem[dest].(tuples := mem[dest].tuples[slot := x])], chain, h, Stored(h),
                    done + multiset{x})
  {
    assert Looked(0);
    var j :| 0 <= j < |chain| && chain[j] == dest;
    StoreContents(mem, chain, dest, slot, x, j);
    StoreShape(c, mem, chain, h, dest, slot, x);
  }

  lemma StoreShape(c: Config, mem: map<Ref, Cell>, chain: Chain, h: nat, dest: Ref, slot: nat, x: Tuple)
    requires Shaped(c, mem, chain, h, Reserved(h, dest, slot)) && dest in mem && slot < |mem[dest].tuples|
    ensures Shaped(c, mem[dest := mem[dest].(tuples := mem[dest].tuples[slot := x])], chain, h, Stored(h))
  {
  }

  lemma StoreContents(mem: map<Ref, Cell>, chain: Chain, dest: Ref, slot: nat, x: Tuple, j: nat)
    requires j < |chain| && chain[j] == dest && forall k | 0 <= k < |chain| && k != j :: chain[k] != dest
    requires dest in mem && mem[dest].count == slot + 1 <= |mem[dest].tuples|
    ensures
      var mem' := mem[dest := mem[dest].(tuples := mem[dest].tuples[slot := x])];
      multiset(Flat(mem', chain, Null)) == multiset(Flat(mem, chain, To(dest))) + multiset{x}
  {
    var cell := mem[dest];
    var mem' := mem[dest := cell.(tuples := cell.tuples[slot := x])];
    assert Filled(mem'[dest], false) == Filled(cell, true) + [x];
    forall k | 0 <= k < |chain| && k != j
      ensures Filled(At(mem', chain[k]), Null == To(chain[k])) == Filled(At(mem, chain[k]), To(dest) == To(chain[k]))
    {
    }
    FlatGains(mem, chain, To(dest), mem', Null, j, x);
  }
}
