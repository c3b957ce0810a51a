/** The concurrent non-partitioned hash join as a state machine: the accesses to the shared latches, counts, links and
    tuples are steps of one thread, and the steps of the threads interleave in any way. Between the phases all threads
    meet at a barrier. Two steps make several accesses: `Claim` reads the counts of two buckets and writes one of them,
    and `Visit` reads a whole bucket. As the invariant shows, the former happens only under the latch of the chain and
    the latter only when nobody writes, so cutting them finer would add no behaviour. */
module NpjJoin {
  datatype Tuple = Tuple(key: int, payload: int)

  /** A bucket: one of the hash table's, or the `n`-th overflow bucket that thread `t` has taken from its buffer. */
  datatype Ref = Head(h: nat) | Over(t: nat, n: nat)

  datatype Link = Null | To(ref: Ref)

  datatype Cell = Cell(count: nat, next: Link, tuples: seq<Tuple>)

  /** Where a thread is in the insertion or the lookup of its current tuple. */
  datatype Pc =
    | Idle
    | Holding(h: nat)
    | Loaded(h: nat, nxt: Link)
    | Linking(h: nat, nxt: Link, b: Ref, stage: nat)
    | Reserved(h: nat, dest: Ref, slot: nat)
    | Stored(h: nat)
    | Walking(at: Ref)
  {
    /** Between taking and releasing a latch. */
    predicate Owner() {
      !Idle? && !Walking?
    }

    /** The bucket that has a slot reserved but not yet written. */
    function Hole(): Link {
      if Reserved? then To(dest) else Null
    }
  }

  /** At the barrier a thread waits until it is woken by the broadcast. */
  datatype Status = Running | Waiting | Woken

  /** `round` counts the barriers passed; `built` and `probed` the tuples of its slices done with, `used` the overflow
      buckets taken. */
  datatype Thread = Thread(status: Status, round: nat, pc: Pc, built: nat, used: nat, probed: nat, matches: nat)

  datatype State = State(ready: bool, mem: map<Ref, Cell>, latch: seq<bool>, threads: seq<Thread>, called: nat)
  {
    function With(t: nat, th: Thread): State
      requires t < |threads|
    {
      this.(threads := threads[t := th])
    }

    function Write(r: Ref, cell: Cell): State {
      this.(mem := mem[r := cell])
    }
  }

  datatype Action =
    | Allocate | Tas | Load | Claim(garbage: Cell) | LinkHead | LinkNext | SetCount | Store | Unlock
    | StartWalk | Visit | Arrive | Wake

  /** The slices of both relations, one for each thread, the number and the capacity of the buckets, the hash function,
      and the rounds in which the table is built and probed. In round 0 the table is allocated. */
  datatype Config = Config(rs: seq<seq<Tuple>>, ss: seq<seq<Tuple>>, heads: nat, capacity: nat, index: int -> nat,
                           build: nat, probe: nat)
  {
    ghost predicate Valid() {
      && 0 < |rs| == |ss| && heads > 0 && capacity > 0 && 0 < build < probe
      && forall k :: index(k) < heads
    }

    function Start(): State {
      State(false, map[], [], seq(|rs|, _ => Thread(Running, 0, Idle, 0, 0, 0, 0)), 0)
    }

    function EmptyCell(): Cell {
      Cell(0, Null, seq(capacity, _ => Tuple(0, 0)))
    }

    /** The thread has done what it has to do in this round. */
    predicate WorkDone(s: State, t: nat)
      requires t < |s.threads| == |rs| == |ss|
    {
      var th := s.threads[t];
      && (th.round == 0 && t == 0 ==> s.ready)
      && (th.round == build ==> th.built == |rs[t]|)
      && (th.round == probe ==> th.probed == |ss[t]|)
    }

    /** This step is what the thread does next. */
    predicate Next(s: State, t: nat, a: Action)
      requires |s.threads| == |rs| == |ss|
    {
      t < |s.threads| &&
      var th := s.threads[t];
      match a
      case Wake => th.status == Woken
      case _ => th.status == Running && NextOwn(s, t, a)
    }

    predicate NextOwn(s: State, t: nat, a: Action)
      requires t < |s.threads| == |rs| == |ss|
    {
      var th := s.threads[t];
      match a
      case Allocate => th.round == 0 && t == 0 && !s.ready
      case Tas => th.round == build && th.pc == Idle && th.built < |rs[t]|
      case Load => th.pc.Holding?
      case Claim(garbage) => th.pc.Loaded? && |garbage.tuples| == capacity
      case LinkHead => th.pc.Linking? && th.pc.stage == 0
      case LinkNext => th.pc.Linking? && th.pc.stage == 1
      case SetCount => th.pc.Linking? && th.pc.stage == 2
      case Store => th.pc.Reserved?
      case Unlock => th.pc.Stored?
      case StartWalk => th.round == probe && th.pc == Idle && th.probed < |ss[t]|
      case Visit => th.pc.Walking?
      case Arrive => th.pc == Idle && th.round <= probe && WorkDone(s, t)
      case Wake => false
    }

    /** Everything that the step accesses is there. */
    predicate Accessible(s: State, t: nat, a: Action)
      requires |s.threads| == |rs| == |ss| && Next(s, t, a)
    {
      var pc := s.threads[t].pc;
      match a
      case Tas => index(rs[t][s.threads[t].built].key) < |s.latch|
      case Load => Head(pc.h) in s.mem
      case Claim(_) => Head(pc.h) in s.mem && (pc.nxt.To? ==> pc.nxt.ref in s.mem)
      case LinkHead => Head(pc.h) in s.mem
      case LinkNext => pc.b in s.mem
      case SetCount => pc.b in s.mem
      case Store => pc.dest in s.mem && pc.slot < |s.mem[pc.dest].tuples| && s.threads[t].built < |rs[t]|
      case Unlock => pc.h < |s.latch|
      case Visit => pc.at in s.mem && s.mem[pc.at].count <= |s.mem[pc.at].tuples| && s.threads[t].probed < |ss[t]|
      case _ => true
    }

    /** The state after the step. */
    function After(s: State, t: nat, a: Action): State
      requires |s.threads| == |rs| == |ss| && Next(s, t, a) && Accessible(s, t, a)
    {
      var th := s.threads[t];
      match a
      case Allocate =>
        s.(ready := true, mem := map h: nat | h < heads :: Head(h) := EmptyCell(), latch := seq(heads, _ => false))
      case Tas =>
        var h := index(rs[t][th.built].key);
        if s.latch[h] then s else s.With(t, th.(pc := Holding(h))).(latch := s.latch[h := true])
      case Load => s.With(t, th.(pc := Loaded(th.pc.h, s.mem[Head(th.pc.h)].next)))
      case Claim(garbage) => AfterClaim(s, t, garbage)
      case LinkHead =>
        var cell := s.mem[Head(th.pc.h)];
        s.With(t, th.(pc := th.pc.(stage := 1))).Write(Head(th.pc.h), cell.(next := To(th.pc.b)))
      case LinkNext =>
        var cell := s.mem[th.pc.b];
        s.With(t, th.(pc := th.pc.(stage := 2))).Write(th.pc.b, cell.(next := th.pc.nxt))
      case SetCount =>
        var cell := s.mem[th.pc.b];
        s.With(t, th.(pc := Reserved(th.pc.h, th.pc.b, 0))).Write(th.pc.b, cell.(count := 1))
      case Store =>
        var cell := s.mem[th.pc.dest];
        s.With(t, th.(pc := Stored(th.pc.h), built := th.built + 1))
          .Write(th.pc.dest, cell.(tuples := cell.tuples[th.pc.slot := rs[t][th.built]]))
      case Unlock => s.With(t, th.(pc := Idle)).(latch := s.latch[th.pc.h := false])
      case StartWalk => s.With(t, th.(pc := Walking(Head(index(ss[t][th.probed].key)))))
      case Visit =>
        var cell := s.mem[th.pc.at];
        var matches := th.matches + Occ(cell.tuples[..cell.count], ss[t][th.probed].key);
        if cell.next.To? then s.With(t, th.(pc := Walking(cell.next.ref), matches := matches))
        else s.With(t, th.(pc := Idle, matches := matches, probed := th.probed + 1))
      case Arrive =>
        if s.called + 1 == |s.threads| then
          s.(called := 0, threads := Broadcast(s.threads)[t := th.(round := th.round + 1)])
        else s.With(t, th.(status := Waiting)).(called := s.called + 1)
      case Wake => s.With(t, th.(status := Running, round := th.round + 1))
    }

    /** Thread `t` takes this step, and `s'` is the state after it. Nothing is said about the state after an access to
        what is not there. */
    ghost predicate Steps(s: State, t: nat, a: Action, s': State) {
      |s.threads| == |rs| == |ss| && Next(s, t, a) && (Accessible(s, t, a) ==> s' == After(s, t, a))
    }

    /** Where the tuple goes: to the bucket, if that is full to the first overflow bucket, and if that is full or
        missing to a new one. */
    function AfterClaim(s: State, t: nat, garbage: Cell): State
      requires |s.threads| == |rs| == |ss| && Next(s, t, Claim(garbage)) && Accessible(s, t, Claim(garbage))
    {
      var th := s.threads[t];
      var h, nxt := th.pc.h, th.pc.nxt;
      var curr := s.mem[Head(h)];
      if curr.count != capacity then
        s.With(t, th.(pc := Reserved(h, Head(h), curr.count))).Write(Head(h), curr.(count := curr.count + 1))
      else if nxt.To? && s.mem[nxt.ref].count != capacity then
        var cell := s.mem[nxt.ref];
        s.With(t, th.(pc := Reserved(h, nxt.ref, cell.count))).Write(nxt.ref, cell.(count := cell.count + 1))
      else
        var b := Over(t, th.used);
        s.With(t, th.(pc := Linking(h, nxt, b, 0), used := th.used + 1)).Write(b, garbage)
    }
  }

  /** All waiting threads are woken. */
  function Broadcast(threads: seq<Thread>): (r: seq<Thread>)
    ensures |r| == |threads|
  {
    seq(|threads|, i requires 0 <= i < |threads| =>
      if threads[i].status == Waiting then threads[i].(status := Woken) else threads[i])
  }

  /** How many tuples have this key. */
  function Occ(s: seq<Tuple>, key: int): nat {
    if s == [] then 0 else Occ(s[..|s| - 1], key) + if s[|s| - 1].key == key then 1 else 0
  }
}
