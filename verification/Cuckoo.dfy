/** Cuckoo hashing: every key has two buckets, and an insertion into two full buckets displaces an arbitrary victim
    that is inserted again. The hash functions, the policy for choosing a victim and the random numbers are arbitrary,
    so the tables hashed twice, hashed by a model and hashed by a perfect function are all instances. */
module Cuckoo {
  import opened Gates
  import opened PairBuckets

  datatype Kicked = Placed | Victim(slot: Slot)

  /** How a bucket is chosen: the emptier one or the first one that has room; a victim by a random bit, or by comparing
      a random number. */
  datatype Kicking = Balanced | Biased(threshold: nat)
  {
    /** With `c1` and `c2` of `n` slots used, the pair goes to the first bucket, if it goes to a free slot. */
    predicate First(c1: nat, c2: nat, n: nat) {
      match this
      case Balanced => c1 <= c2 && c1 < n
      case Biased(_) => c1 < n
    }

    predicate FirstVictim(rng: nat) {
      match this
      case Balanced => rng % 2 == 1
      case Biased(threshold) => rng > threshold
    }
  }

  /** The parameters of a table. */
  datatype Scheme = Scheme(layout: Layout, hash1: int -> nat, hash2: int -> nat)
  {
    predicate Valid() {
      layout.Valid()
    }

    function Home1(key: int): (b: nat)
      requires Valid()
      ensures b < layout.size
    {
      hash1(key) % layout.size
    }

    /** The second bucket; if the hash functions agree it is the next one, around the end of the table. */
    function Home2(key: int): (b: nat)
      requires Valid()
      ensures b < layout.size
    {
      var b := hash2(key) % layout.size;
      if b != Home1(key) then b else if b == layout.size - 1 then 0 else b + 1
    }

    /** A key has two different buckets if there are two. The first hash gives the first one, and the second hash the
        second one, unless they agree; then it is the next one around the end of the table. */
    lemma TwoHomes(key: int)
      requires Valid()
      ensures layout.size > 1 ==> Home1(key) != Home2(key)
      ensures Home1(key) == hash1(key) % layout.size
      ensures hash1(key) % layout.size != hash2(key) % layout.size ==> Home2(key) == hash2(key) % layout.size
      ensures hash1(key) % layout.size == hash2(key) % layout.size ==> Home2(key) == (Home1(key) + 1) % layout.size
    {
    }

    /** The key in slot `i` of bucket `b` may be there. */
    ghost predicate AtHome(bs: Buckets, b: nat, i: nat)
      requires Valid() && b < |bs| && i < |bs[b]|
    {
      bs[b][i].key != layout.sentinel ==> b == Home1(bs[b][i].key) || b == Home2(bs[b][i].key)
    }

    /** The buckets hold exactly the pairs of `m`: each key once, in one of its two buckets, to the left of the free
        slots. */
    ghost predicate Represents(bs: Buckets, m: map<int, int>)
      requires Valid()
    {
      layout.Represents(bs, m) && forall b, i | 0 <= b < |bs| && 0 <= i < |bs[b]| :: AtHome(bs, b, i)
    }

    /** A slot is overwritten: by its own key, in a packed bucket when free, or by a key that is nowhere yet. */
    lemma WriteSlot(bs: Buckets, m: map<int, int>, b: nat, i: nat, slot: Slot)
      requires Valid() && Represents(bs, m) && b < layout.size && i < layout.bucketSize && slot.key != layout.sentinel
      requires slot.key == bs[b][i].key || slot.key !in m
      requires b == Home1(slot.key) || b == Home2(slot.key)
      requires forall j | 0 <= j < i :: bs[b][j].key != layout.sentinel
      ensures Represents(layout.Written(bs, b, i, slot), layout.Replaced(m, bs[b][i].key, slot))
    {
      layout.WriteSlot(bs, m, b, i, slot);
      var r := layout.Written(bs, b, i, slot);
      forall c, j | 0 <= c < |r| && 0 <= j < |r[c]|
        ensures AtHome(r, c, j)
      {
        if c != b || j != i {
          assert AtHome(bs, c, j) && r[c][j] == bs[c][j];
        }
      }
    }
  }

  ghost predicate Has(slots: seq<Slot>, key: int) {
    exists i :: 0 <= i < |slots| && slots[i].key == key
  }

  /** The buckets, the pair in hand, and how many random numbers have been drawn. */
  datatype Hand = Hand(buckets: Buckets, slot: Slot, drawn: nat)

  /** After a kick: the map in the table and the pair displaced. */
  datatype Link = Link(contents: map<int, int>, displaced: Slot)
  {
    /** The displaced key is not in the table; put back, it makes up `all`. */
    ghost predicate Carries(all: map<int, int>) {
      displaced.key !in contents && contents[displaced.key := displaced.payload] == all
    }
  }

  /** The links of a chain of `n` kicks, of which `last` is the last one. What this says is available wherever an index
      is named as Looked. */
  ghost predicate Displaced(chain: seq<Link>, n: nat, all: map<int, int>, key0: int, last: Link) {
    forall u {:trigger Looked(u)} | Looked(u) ::
      && |chain| == n && (forall i | 0 <= i < n :: chain[i].Carries(all))
      && (n > 0 ==> key0 in chain[0].contents && chain[n - 1] == last)
  }

  lemma ChainGrows(chain: seq<Link>, n: nat, all: map<int, int>, key0: int, last: Link, next: Link)
    requires Displaced(chain, n, all, key0, last) && next.Carries(all) && (n == 0 ==> key0 in next.contents)
    ensures Displaced(chain + [next], n + 1, all, key0, next)
  {
    assert Looked(0);
  }

  lemma ChainEnds(chain: seq<Link>, n: nat, all: map<int, int>, key0: int, last: Link)
    requires Displaced(chain, n, all, key0, last)
    ensures |chain| == n && forall i | 0 <= i < n :: chain[i].Carries(all)
    ensures n > 0 ==> key0 in chain[0].contents && chain[n - 1] == last
    ensures n > 0 ==>
      var lost := last.displaced;
      lost.key in all && all[lost.key] == lost.payload && last.contents == all - {lost.key}
    ensures n == 1 ==> last.displaced.key != key0
  {
    assert Looked(0);
    if n > 0 {
      assert last.Carries(all);
    }
  }

  class Table {
    const scheme: Scheme
    const maxKicks: nat
    const kicking: Kicking
    /** The random numbers, in the order they are drawn. */
    const rand: nat -> nat
    var drawn: nat
    var buckets: Buckets
    ghost var contents: map<int, int>

    ghost predicate Valid()
      reads this
    {
      scheme.Valid() && scheme.Represents(buckets, contents)
    }

    constructor (scheme: Scheme, maxKicks: nat, kicking: Kicking, rand: nat -> nat)
      requires scheme.Valid()
      ensures Valid() && contents == map[] && buckets == scheme.layout.Empty()
      ensures this.scheme == scheme && this.maxKicks == maxKicks && this.kicking == kicking && this.rand == rand
    {
      this.scheme, this.maxKicks, this.kicking, this.rand := scheme, maxKicks, kicking, rand;
      drawn, contents := 0, map[];
      buckets := scheme.layout.Empty();
    }

    method Clear()
      requires Valid()
      modifies this
      ensures Valid() && contents == map[]
    {
      buckets := scheme.layout.Empty();
      contents := map[];
    }

    /** Whether the key is in the bucket. */
    method InBucket(b: nat, key: int) returns (found: bool)
      requires Valid() && b < scheme.layout.size
      ensures found <==> InSome(b, key)
    {
      for i := 0 to scheme.layout.bucketSize
        invariant forall j | 0 <= j < i :: buckets[b][j].key != key
      {
        if buckets[b][i].key == key {
          return true;
        }
      }
      found := false;
    }

    /** 1 exactly for the keys of the map. The sentinel is found exactly if one of its buckets has a free slot. */
    method Lookup(key: int) returns (found: int)
      requires Valid()
      ensures found == 0 || found == 1
      ensures key != scheme.layout.sentinel ==> (found == 1 <==> key in contents)
      ensures key == scheme.layout.sentinel ==> (found == 1 <==> HasRoom(key))
    {
      if key != scheme.layout.sentinel {
        InItsBuckets(key);
      }
      RoomAtHome(key);
      var first := InBucket(scheme.Home1(key), key);
      if first {
        return 1;
      }
      var second := InBucket(scheme.Home2(key), key);
      found := if second then 1 else 0;
    }

    /** The number of used slots of a bucket, which is where its free slots start. */
    method CountUsed(b: nat) returns (c: nat)
      requires Valid() && b < scheme.layout.size
      ensures c == scheme.layout.Used(buckets[b]) <= scheme.layout.bucketSize
      ensures forall i | 0 <= i < scheme.layout.bucketSize :: buckets[b][i].key != scheme.layout.sentinel <==> i < c
    {
      var slots := buckets[b];
      c := 0;
      for i := 0 to |slots|
        invariant c == scheme.layout.Used(slots[..i])
      {
        assert slots[..i + 1][..i] == slots[..i];
        c := c + if slots[i].key == scheme.layout.sentinel then 0 else 1;
      }
      assert slots[..|slots|] == slots;
      scheme.layout.UsedFirst(slots);
    }

    /** Slot `i` of bucket `b`, before which all are used, is overwritten. */
    method Write(b: nat, i: nat, slot: Slot)
      requires Valid() && b < scheme.layout.size && i < scheme.layout.bucketSize && slot.key != scheme.layout.sentinel
      requires slot.key == buckets[b][i].key || slot.key !in contents
      requires b == scheme.Home1(slot.key) || b == scheme.Home2(slot.key)
      requires forall j | 0 <= j < i :: buckets[b][j].key != scheme.layout.sentinel
      modifies this`buckets, this`contents
      ensures Valid() && buckets == scheme.layout.Written(old(buckets), b, i, slot)
      ensures contents == scheme.layout.Replaced(old(contents), old(buckets[b][i].key), slot)
    {
      scheme.WriteSlot(buckets, contents, b, i, slot);
      contents := scheme.layout.Replaced(contents, buckets[b][i].key, slot);
      buckets := buckets[b := buckets[b][i := slot]];
    }

    /** If the key is in one of its buckets, its payload is replaced. */
    method Update(key: int, payload: int) returns (found: bool)
      requires Valid() && key != scheme.layout.sentinel
      modifies this`buckets, this`contents
      ensures Valid() && (found <==> key in old(contents))
      ensures contents == if found then old(contents)[key := payload] else old(contents)
      ensures !found ==> buckets == old(buckets)
    {
      var b1, b2 := scheme.Home1(key), scheme.Home2(key);
      for i := 0 to scheme.layout.bucketSize
        invariant Valid() && contents == old(contents) && buckets == old(buckets)
        invariant forall j | 0 <= j < i :: buckets[b1][j].key != key && buckets[b2][j].key != key
      {
        if buckets[b1][i].key == key {
          Overwrite(b1, i, key, payload);
          return true;
        }
        if buckets[b2][i].key == key {
          Overwrite(b2, i, key, payload);
          return true;
        }
      }
      InItsBuckets(key);
      found := false;
    }

    method Overwrite(b: nat, i: nat, key: int, payload: int)
      requires Valid() && key != scheme.layout.sentinel && b < scheme.layout.size && i < scheme.layout.bucketSize
      requires b == scheme.Home1(key) || b == scheme.Home2(key)
      requires buckets[b][i].key == key
      modifies this`buckets, this`contents
      ensures Valid() && key in old(contents) && contents == old(contents)[key := payload]
    {
      assert scheme.layout.Sound(buckets, contents, b, i);
      assert Packed(buckets[b], scheme.layout.sentinel);
      Write(b, i, Slot(key, payload));
    }

    /** A key is in the map exactly if it is in one of its two buckets. */
    lemma InItsBuckets(key: int)
      requires Valid() && key != scheme.layout.sentinel
      ensures key in contents <==> InSome(scheme.Home1(key), key) || InSome(scheme.Home2(key), key)
    {
      if key in contents {
        var b, i :| 0 <= b < |buckets| && 0 <= i < |buckets[b]| && buckets[b][i].key == key;
        assert scheme.layout.Sound(buckets, contents, b, i) && scheme.AtHome(buckets, b, i);
      }
      forall b, i | 0 <= b < |buckets| && 0 <= i < |buckets[b]| && buckets[b][i].key == key
        ensures key in contents
      {
        assert scheme.layout.Sound(buckets, contents, b, i);
      }
    }

    ghost predicate InSome(b: nat, key: int)
      requires scheme.Valid() && scheme.layout.Shape(buckets) && b < scheme.layout.size
      reads this
    {
      Has(buckets[b], key)
    }

    /** The bucket whose free slot the policy chooses. */
    ghost function Goal(bs: Buckets, key: int): (b: nat)
      requires scheme.Valid() && scheme.layout.Shape(bs)
      ensures b < scheme.layout.size
    {
      var b1, b2 := scheme.Home1(key), scheme.Home2(key);
      if kicking.First(scheme.layout.Used(bs[b1]), scheme.layout.Used(bs[b2]), scheme.layout.bucketSize) then b1 else b2
    }

    /** A free slot is found if there is one, in the emptier bucket or in the first one that has room. */
    lemma GoalIs(bs: Buckets, key: int)
      requires scheme.Valid() && scheme.layout.Shape(bs)
      ensures
        var n, b1, b2 := scheme.layout.bucketSize, scheme.Home1(key), scheme.Home2(key);
        var goal, c1, c2 := Goal(bs, key), scheme.layout.Used(bs[b1]), scheme.layout.Used(bs[b2]);
        && (goal == b1 || goal == b2)
        && (c1 < n || c2 < n ==> scheme.layout.Used(bs[goal]) < n)
        && (kicking.Balanced? && (c1 < n || c2 < n) ==>
              scheme.layout.Used(bs[goal]) <= c1 && scheme.layout.Used(bs[goal]) <= c2 && (c1 == c2 ==> goal == b1))
        && (kicking.Biased? && c1 < n ==> goal == b1)
    {
    }

    /** The victim: its bucket is chosen by the last bit of the random number or by comparing it with the threshold, its
        slot by the remainder. */
    lemma VictimIs(h: Hand, b: nat, i: nat)
      requires scheme.Valid() && scheme.layout.Shape(h.buckets) && i == rand(h.drawn) % scheme.layout.bucketSize
      requires kicking.Balanced? ==>
                 b == if rand(h.drawn) % 2 == 1 then scheme.Home1(h.slot.key) else scheme.Home2(h.slot.key)
      requires kicking.Biased? ==>
                 b == if rand(h.drawn) > kicking.threshold then scheme.Home1(h.slot.key) else scheme.Home2(h.slot.key)
      ensures Swapped(h).slot == h.buckets[b][i] && Swapped(h).buckets[b][i] == h.slot
      ensures forall c, j | 0 <= c < |h.buckets| && 0 <= j < |h.buckets[c]| && (c != b || j != i) ::
                Swapped(h).buckets[c][j] == h.buckets[c][j]
      ensures Swapped(h).drawn == h.drawn + 1
    {
    }

    /** The pair in hand needs no kick: one of its buckets has its key or a free slot. */
    ghost predicate Rests(h: Hand)
      requires scheme.Valid() && scheme.layout.Shape(h.buckets)
    {
      var b1, b2 := scheme.Home1(h.slot.key), scheme.Home2(h.slot.key);
      || Has(h.buckets[b1], h.slot.key) || Has(h.buckets[b2], h.slot.key)
      || Has(h.buckets[b1], scheme.layout.sentinel) || Has(h.buckets[b2], scheme.layout.sentinel)
    }

    /** One kick: the pair in hand and its victim, which the next random number chooses, change places. */
    ghost function Swapped(h: Hand): (r: Hand)
      requires scheme.Valid() && scheme.layout.Shape(h.buckets)
      ensures scheme.layout.Shape(r.buckets)
    {
      var rng := rand(h.drawn);
      var b := if kicking.FirstVictim(rng) then scheme.Home1(h.slot.key) else scheme.Home2(h.slot.key);
      var i := rng % scheme.layout.bucketSize;
      Hand(scheme.layout.Written(h.buckets, b, i, h.slot), h.buckets[b][i], h.drawn + 1)
    }

    /** The kick path: the table and the pair in hand after `n` kicks. */
    ghost function AfterKicks(h: Hand, n: nat): (r: Hand)
      requires scheme.Valid() && scheme.layout.Shape(h.buckets)
      ensures scheme.layout.Shape(r.buckets)
    {
      if n == 0 then h else Swapped(AfterKicks(h, n - 1))
    }

    /** The first `n` pairs of the kick path find neither their key nor a free slot. */
    ghost predicate Forced(h: Hand, n: nat)
      requires scheme.Valid() && scheme.layout.Shape(h.buckets)
    {
      forall m: nat | m < n :: !Rests(AfterKicks(h, m))
    }

    /** `n` kicks are forced, and lead to `r`. What this says is available wherever an index is named as Looked. */
    ghost predicate Leads(h: Hand, n: nat, r: Hand)
      requires scheme.Valid() && scheme.layout.Shape(h.buckets)
    {
      forall u {:trigger Looked(u)} | Looked(u) :: r == AfterKicks(h, n) && Forced(h, n)
    }

    lemma LeadsOn(h: Hand, n: nat, r: Hand)
      requires scheme.Valid() && scheme.layout.Shape(h.buckets) && scheme.layout.Shape(r.buckets)
      requires Leads(h, n, r) && !Rests(r)
      ensures Leads(h, n + 1, Swapped(r))
    {
      assert Looked(0);
    }

    /** Where the path ends: it is at `r` after `n` kicks, with a pair that comes to rest or at the limit. */
    lemma PathEnds(h: Hand, n: nat, r: Hand, thrown: bool)
      requires scheme.Valid() && scheme.layout.Shape(h.buckets) && scheme.layout.Shape(r.buckets)
      requires Leads(h, n, r) && n <= maxKicks + 1 && (if thrown then n == maxKicks + 1 else n <= maxKicks && Rests(r))
      ensures r == AfterKicks(h, n) && Forced(h, n) && (thrown <==> Forced(h, maxKicks + 1))
      ensures n == 0 <==> Rests(h)
    {
      assert Looked(0);
      assert n > 0 ==> !Rests(AfterKicks(h, 0));
    }

    /** The table with this pair in hand. */
    ghost function Holding(key: int, payload: int): Hand
      reads this
    {
      Hand(buckets, Slot(key, payload), drawn)
    }

    /** The pair is now in bucket `b`, and nothing else changed. */
    ghost predicate PutIn(bs: Buckets, slot: Slot, b: nat)
      requires scheme.layout.Shape(bs) && b < scheme.layout.size
      reads this
    {
      exists i ::
        && 0 <= i < scheme.layout.bucketSize && bs[b][i].key == scheme.layout.sentinel
        && buckets == scheme.layout.Written(bs, b, i, slot)
    }

    /** A key that is nowhere goes to a free slot of one of its buckets; only if both are full does it take the place of
        a victim, which is in the table no more. */
    method Kick(key: int, payload: int) returns (kicked: Kicked)
      requires Valid() && key != scheme.layout.sentinel && key !in contents
      modifies this
      ensures Valid()
      ensures kicked.Placed? <==> old(HasRoom(key))
      ensures kicked.Placed? ==> contents == old(contents)[key := payload]
      ensures kicked.Placed? ==> PutIn(old(buckets), Slot(key, payload), Goal(old(buckets), key))
      ensures kicked.Victim? ==>
        var v := kicked.slot;
        v.key != key && v.key in old(contents) && old(contents)[v.key] == v.payload &&
        contents == scheme.layout.Replaced(old(contents), v.key, Slot(key, payload))
      ensures kicked.Victim? ==>
        Hand(buckets, kicked.slot, drawn) == Swapped(old(Holding(key, payload)))
    {
      var b1, b2 := scheme.Home1(key), scheme.Home2(key);
      RoomAtHome(key);
      var c1 := CountUsed(b1);
      var c2 := CountUsed(b2);
      if kicking.First(c1, c2, scheme.layout.bucketSize) {
        ghost var bs: Buckets := buckets;
        assert bs[b1][c1].key == scheme.layout.sentinel;
        Fill(b1, c1, key, payload);
        assert PutIn(bs, Slot(key, payload), b1);
        return Placed;
      }
      if c2 < scheme.layout.bucketSize {
        ghost var bs: Buckets := buckets;
        assert bs[b2][c2].key == scheme.layout.sentinel;
        Fill(b2, c2, key, payload);
        assert PutIn(bs, Slot(key, payload), b2);
        return Placed;
      }
      var rng := rand(drawn);
      drawn := drawn + 1;
      var b, i := if kicking.FirstVictim(rng) then b1 else b2, rng % scheme.layout.bucketSize;
      kicked := Displace(b, i, key, payload);
    }

    method Fill(b: nat, c: nat, key: int, payload: int)
      requires Valid() && key != scheme.layout.sentinel && key !in contents
      requires b == scheme.Home1(key) || b == scheme.Home2(key)
      requires c < scheme.layout.bucketSize
      requires forall i | 0 <= i < scheme.layout.bucketSize :: buckets[b][i].key != scheme.layout.sentinel <==> i < c
      modifies this`buckets, this`contents
      ensures Valid() && contents == old(contents)[key := payload]
      ensures buckets == scheme.layout.Written(old(buckets), b, c, Slot(key, payload))
    {
      Write(b, c, Slot(key, payload));
    }

    method Displace(b: nat, i: nat, key: int, payload: int) returns (kicked: Kicked)
      requires Valid() && key != scheme.layout.sentinel && key !in contents && i < scheme.layout.bucketSize
      requires b == scheme.Home1(key) || b == scheme.Home2(key)
      requires forall j | 0 <= j < scheme.layout.bucketSize :: buckets[b][j].key != scheme.layout.sentinel
      modifies this`buckets, this`contents
      ensures Valid() && kicked == Victim(old(buckets[b][i])) && kicked.slot.key in old(contents)
      ensures buckets == scheme.layout.Written(old(buckets), b, i, Slot(key, payload))
      ensures old(contents)[kicked.slot.key] == kicked.slot.payload
      ensures contents == scheme.layout.Replaced(old(contents), kicked.slot.key, Slot(key, payload))
    {
      assert scheme.layout.Sound(buckets, contents, b, i);
      kicked := Victim(buckets[b][i]);
      Write(b, i, Slot(key, payload));
    }

    /** The pair goes into the table, or the limit on displacements is reached. Then exactly one pair is lost, not
        necessarily the new one: the one last displaced. The table and the pair displaced by each kick together are the
        old map with the new pair, and no displaced key is in the table, so none is ever taken for an update. */
    method Insert(key0: int, payload0: int)
      returns (thrown: bool, kicks: nat, lost: Slot, ghost chain: seq<Link>)
      requires Valid() && key0 != scheme.layout.sentinel
      modifies this
      ensures Valid() && kicks <= maxKicks + 1 && (thrown <==> kicks == maxKicks + 1)
      ensures !thrown ==> contents == old(contents)[key0 := payload0]
      ensures thrown ==>
        var all := old(contents)[key0 := payload0];
        lost.key in all && all[lost.key] == lost.payload && contents == all - {lost.key}
      ensures kicks == 0 <==> key0 in old(contents) || old(HasRoom(key0))
      ensures maxKicks == 0 && thrown ==> lost.key != key0
      ensures thrown <==> Forced(old(Holding(key0, payload0)), maxKicks + 1)
      ensures Forced(old(Holding(key0, payload0)), kicks)
      ensures !thrown ==> Rests(AfterKicks(old(Holding(key0, payload0)), kicks))
      ensures thrown ==> Hand(buckets, lost, drawn) == AfterKicks(old(Holding(key0, payload0)), kicks)
      ensures |chain| == kicks && forall i | 0 <= i < kicks :: chain[i].Carries(old(contents)[key0 := payload0])
      ensures kicks > 0 ==> key0 in chain[0].contents
      ensures thrown ==> lost == chain[kicks - 1].displaced && contents == chain[kicks - 1].contents
    {
      ghost var all, start := contents[key0 := payload0], Holding(key0, payload0);
      RestsFirst(key0, payload0);
      var key, payload := key0, payload0;
      kicks, lost, chain := 0, Slot(key, payload), [];
      assert Leads(start, 0, start);
      while true
        invariant Valid() && key != scheme.layout.sentinel && kicks <= maxKicks + 1 && contents[key := payload] == all
        invariant kicks == 0 ==> key == key0
        invariant Leads(start, kicks, Holding(key, payload))
        invariant Displaced(chain, kicks, all, key0, Link(contents, Slot(key, payload)))
        decreases maxKicks + 1 - kicks
      {
        if kicks > maxKicks {
          lost := Slot(key, payload);
          PathEnds(start, kicks, Holding(key, payload), true);
          ChainEnds(chain, kicks, all, key0, Link(contents, lost));
          return true, kicks, lost, chain;
        }
        ghost var before := Holding(key, payload);
        ghost var link := Link(contents, Slot(key, payload));
        var done, victim := InsertOnce(key, payload);
        if done {
          PathEnds(start, kicks, before, false);
          ChainEnds(chain, kicks, all, key0, link);
          return false, kicks, lost, chain;
        }
        LeadsOn(start, kicks, before);
        ChainGrows(chain, kicks, all, key0, link, Link(contents, victim));
        chain := chain + [Link(contents, victim)];
        key, payload, kicks := victim.key, victim.payload, kicks + 1;
      }
    }

    /** Without a kick the pair finds its key or a free slot. */
    lemma RestsFirst(key: int, payload: int)
      requires Valid() && key != scheme.layout.sentinel
      ensures Rests(Holding(key, payload)) <==> key in contents || HasRoom(key)
    {
      InItsBuckets(key);
      RoomAtHome(key);
    }

    /** One round: an update, a placement in a free slot, or a kick. */
    method InsertOnce(key: int, payload: int) returns (done: bool, victim: Slot)
      requires Valid() && key != scheme.layout.sentinel
      modifies this
      ensures Valid() && (key in old(contents) || old(HasRoom(key)) <==> done)
      ensures done ==> contents == old(contents)[key := payload]
      ensures !done ==> key in contents && victim.key != scheme.layout.sentinel
      ensures !done ==> Link(contents, victim).Carries(old(contents)[key := payload])
      ensures done <==> Rests(old(Holding(key, payload)))
      ensures !done ==> Hand(buckets, victim, drawn) == Swapped(old(Holding(key, payload)))
    {
      RestsFirst(key, payload);
      victim := Slot(key, payload);
      done := Update(key, payload);
      if !done {
        var kicked := Kick(key, payload);
        if kicked.Placed? {
          return true, victim;
        }
        victim := kicked.slot;
      }
    }

    /** One of the buckets that the hashes give to the key has a free slot. */
    ghost predicate HasRoom(key: int)
      requires scheme.Valid() && scheme.layout.Shape(buckets)
      reads this
    {
      forall u {:trigger Entered(u)} | Entered(u) ::
        var n, free := scheme.layout.size, scheme.layout.sentinel;
        var b1, b2 := scheme.hash1(key) % n, scheme.hash2(key) % n;
        Has(buckets[b1], free) || Has(buckets[if b1 != b2 then b2 else (b1 + 1) % n], free)
    }

    /** The same, said of the two buckets of the key. */
    lemma RoomAtHome(key: int)
      requires scheme.Valid() && scheme.layout.Shape(buckets)
      ensures HasRoom(key) <==>
              InSome(scheme.Home1(key), scheme.layout.sentinel) || InSome(scheme.Home2(key), scheme.layout.sentinel)
    {
      assert Entered(0);
      scheme.TwoHomes(key);
    }

    /** A table of one slot holds at most one key. */
    lemma OneSlot(k: int, l: int)
      requires Valid() && scheme.layout.size == 1 && scheme.layout.bucketSize == 1 && k in contents && l in contents
      ensures k == l
    {
      var b, i :| 0 <= b < |buckets| && 0 <= i < |buckets[b]| && buckets[b][i].key == k;
      var c, j :| 0 <= c < |buckets| && 0 <= j < |buckets[c]| && buckets[c][j].key == l;
    }

    /** With two buckets of one slot and one key at most, there is room for every key. */
    lemma SomeFree(key: int)
      requires Valid() && scheme.layout.size == 2 && scheme.layout.bucketSize == 1 && |contents| < 2
      ensures HasRoom(key)
    {
      scheme.TwoHomes(key);
      RoomAtHome(key);
      var free, x, y := scheme.layout.sentinel, buckets[0][0].key, buckets[1][0].key;
      if x != free && y != free {
        assert scheme.layout.Sound(buckets, contents, 0, 0) && scheme.layout.Sound(buckets, contents, 1, 0);
        assert x != y;
        assert {x, y} <= contents.Keys && |{x, y}| == 2;
        Smaller({x, y}, contents.Keys);
      } else if x == free {
        assert Has(buckets[0], free);
      } else {
        assert Has(buckets[1], free);
      }
    }

    lemma Smaller(a: set<int>, b: set<int>)
      requires a <= b
      ensures |a| <= |b|
    {
      assert b == a + (b - a);
    }

    /** Its only slot holds its only pair. */
    lemma OnlyOne(k: int)
      requires Valid() && scheme.layout.size == 1 && scheme.layout.bucketSize == 1 && k in contents
      ensures buckets == [[Slot(k, contents[k])]]
    {
      assert scheme.layout.Somewhere(buckets, k) && scheme.layout.Sound(buckets, contents, 0, 0);
      assert buckets[0] == [Slot(k, contents[k])];
    }

    /** In a table of one slot, the pair in the slot and the pair in hand change places with every kick. */
    lemma {:induction false} TakesTurns(h: Hand, n: nat)
      requires scheme.Valid() && scheme.layout.size == 1 && scheme.layout.bucketSize == 1
      requires scheme.layout.Shape(h.buckets)
      ensures AfterKicks(h, n) ==
              if n % 2 == 0 then Hand(h.buckets, h.slot, h.drawn + n)
              else Hand([[h.slot]], h.buckets[0][0], h.drawn + n)
    {
      if n > 0 {
        TakesTurns(h, n - 1);
        OnlySlot(h.buckets, h.slot);
        OnlySlot([[h.slot]], h.buckets[0][0]);
      }
    }

    lemma OnlySlot(bs: Buckets, slot: Slot)
      requires |bs| == 1 && |bs[0]| == 1
      ensures bs == [[bs[0][0]]] && scheme.layout.Written(bs, 0, 0, slot) == [[slot]]
    {
      assert bs[0] == [bs[0][0]] && bs[0][0 := slot] == [slot];
    }

    /** How many pairs there are, and how many are in their first bucket. Each bucket is read up to its first free
        slot. */
    method DataStatistics() returns (primary: nat, total: nat)
      requires Valid()
      ensures total == |contents|
      ensures primary == |set k | k in contents && InSome(scheme.Home1(k), k)|
    {
      primary, total := 0, 0;
      ghost var seen, first: set<int> := {}, {};
      for b := 0 to scheme.layout.size
        invariant Tallied(seen, first, b, 0) && total == |seen| && primary == |first|
      {
        primary, total, seen, first := BucketStatistics(b, primary, total, seen, first);
      }
      AllTallied(seen, first);
    }

    method BucketStatistics(b: nat, primary0: nat, total0: nat, ghost seen0: set<int>, ghost first0: set<int>)
      returns (primary: nat, total: nat, ghost seen: set<int>, ghost first: set<int>)
      requires Valid() && b < scheme.layout.size && Tallied(seen0, first0, b, 0) && total0 == |seen0|
      requires primary0 == |first0|
      ensures Tallied(seen, first, b + 1, 0) && total == |seen| && primary == |first|
    {
      primary, total, seen, first := primary0, total0, seen0, first0;
      for i := 0 to scheme.layout.bucketSize
        invariant Tallied(seen, first, b, i) && total == |seen| && primary == |first|
      {
        var key := buckets[b][i].key;
        if key == scheme.layout.sentinel {
          RestIsFree(seen, first, b, i);
          return;
        }
        if scheme.Home1(key) == b {
          primary := primary + 1;
        }
        total := total + 1;
        seen, first := CountOne(seen, first, b, i);
      }
      TallyNext(seen, first, b);
    }

    /** Slot `j` of bucket `c` comes before slot `i` of bucket `b`. */
    static predicate Before(c: nat, j: nat, b: nat, i: nat) {
      c < b || (c == b && j < i)
    }

    /** `seen` are the keys before slot `i` of bucket `b`, `first` those in their first bucket. */
    ghost predicate Tallied(seen: set<int>, first: set<int>, b: nat, i: nat)
      requires scheme.Valid() && scheme.layout.Shape(buckets)
      reads this
    {
      && (forall c, j | 0 <= c < scheme.layout.size && 0 <= j < scheme.layout.bucketSize && Before(c, j, b, i) &&
                        buckets[c][j].key != scheme.layout.sentinel ::
            buckets[c][j].key in seen && (c == scheme.Home1(buckets[c][j].key) <==> buckets[c][j].key in first))
      && (forall k | k in seen :: k != scheme.layout.sentinel && SeenAt(k, b, i))
      && first <= seen
    }

    ghost predicate SeenAt(k: int, b: nat, i: nat)
      requires scheme.Valid() && scheme.layout.Shape(buckets)
      reads this
    {
      exists c, j ::
        0 <= c < scheme.layout.size && 0 <= j < scheme.layout.bucketSize && Before(c, j, b, i) && buckets[c][j].key == k
    }

    lemma CountOne(seen0: set<int>, first0: set<int>, b: nat, i: nat) returns (seen: set<int>, first: set<int>)
      requires Valid() && b < scheme.layout.size && i < scheme.layout.bucketSize && Tallied(seen0, first0, b, i)
      requires buckets[b][i].key != scheme.layout.sentinel
      ensures |seen| == |seen0| + 1
      ensures |first| == |first0| + if scheme.Home1(buckets[b][i].key) == b then 1 else 0
      ensures Tallied(seen, first, b, i + 1)
    {
      TallyOne(seen0, first0, b, i);
      var key := buckets[b][i].key;
      seen, first := seen0 + {key}, if scheme.Home1(key) == b then first0 + {key} else first0;
    }

    lemma TallyOne(seen: set<int>, first: set<int>, b: nat, i: nat)
      requires Valid() && b < scheme.layout.size && i < scheme.layout.bucketSize && Tallied(seen, first, b, i)
      requires buckets[b][i].key != scheme.layout.sentinel
      ensures buckets[b][i].key !in seen && first <= seen
      ensures
        var key := buckets[b][i].key;
        Tallied(seen + {key}, if scheme.Home1(key) == b then first + {key} else first, b, i + 1)
    {
      var key := buckets[b][i].key;
      assert Before(b, i, b, i + 1);
      forall k | k in seen
        ensures k != key && SeenAt(k, b, i + 1)
      {
        var c: nat, j: nat :|
          c < scheme.layout.size && j < scheme.layout.bucketSize && Before(c, j, b, i) && buckets[c][j].key == k;
        assert Before(c, j, b, i + 1);
      }
    }

    lemma TallyNext(seen: set<int>, first: set<int>, b: nat)
      requires Valid() && b < scheme.layout.size && Tallied(seen, first, b, scheme.layout.bucketSize)
      ensures Tallied(seen, first, b + 1, 0)
    {
      forall k | k in seen
        ensures SeenAt(k, b + 1, 0)
      {
        var c: nat, j: nat :|
          && c < scheme.layout.size && j < scheme.layout.bucketSize
          && Before(c, j, b, scheme.layout.bucketSize) && buckets[c][j].key == k;
        assert Before(c, j, b + 1, 0);
      }
      forall c: nat, j: nat | c < scheme.layout.size && j < scheme.layout.bucketSize && Before(c, j, b + 1, 0)
        ensures Before(c, j, b, scheme.layout.bucketSize)
      {
      }
    }

    lemma RestIsFree(seen: set<int>, first: set<int>, b: nat, i: nat)
      requires Valid() && b < scheme.layout.size && i < scheme.layout.bucketSize && Tallied(seen, first, b, i)
      requires buckets[b][i].key == scheme.layout.sentinel
      ensures Tallied(seen, first, b + 1, 0)
    {
      assert Packed(buckets[b], scheme.layout.sentinel);
      forall k | k in seen
        ensures SeenAt(k, b + 1, 0)
      {
        var c: nat, j: nat :|
          c < scheme.layout.size && j < scheme.layout.bucketSize && Before(c, j, b, i) && buckets[c][j].key == k;
        assert Before(c, j, b + 1, 0);
      }
      forall c: nat, j: nat | c < scheme.layout.size && j < scheme.layout.bucketSize && Before(c, j, b + 1, 0) &&
                              buckets[c][j].key != scheme.layout.sentinel
        ensures Before(c, j, b, i)
      {
      }
    }

    lemma AllTallied(seen: set<int>, first: set<int>)
      requires Valid() && Tallied(seen, first, scheme.layout.size, 0)
      ensures seen == contents.Keys && first == set k | k in contents && InSome(scheme.Home1(k), k)
    {
      forall k | k in contents
        ensures k in seen && (k in first <==> InSome(scheme.Home1(k), k))
      {
        var b: nat, i: nat :| b < |buckets| && i < |buckets[b]| && buckets[b][i].key == k;
        assert Before(b, i, scheme.layout.size, 0) && scheme.layout.Sound(buckets, contents, b, i);
        if InSome(scheme.Home1(k), k) {
          var j :| 0 <= j < scheme.layout.bucketSize && buckets[scheme.Home1(k)][j].key == k;
          assert scheme.layout.Once(buckets);
        }
      }
      forall k | k in seen
        ensures k in contents
      {
        var c: nat, j: nat :|
          && c < scheme.layout.size && j < scheme.layout.bucketSize
          && Before(c, j, scheme.layout.size, 0) && buckets[c][j].key == k;
        assert scheme.layout.Sound(buckets, contents, c, j);
      }
      var primary := set k | k in contents && InSome(scheme.Home1(k), k);
      assert first <= primary && primary <= first;
    }

    /** The pairs are inserted in order, in two phases of which the second is timed. */
    method Build(data: seq<(int, int)>, insertCount: nat) returns (thrown: bool)
      requires Valid() && contents == map[] && insertCount <= |data|
      requires forall i | 0 <= i < |data| :: data[i].0 != scheme.layout.sentinel
      modifies this
      ensures Valid() && (!thrown ==> contents == LastWritten(data) && HasLast(contents, data))
    {
      LastWrittenHasLast(data);
      thrown := InsertRange(data, 0, |data| - insertCount);
      if !thrown {
        thrown := InsertRange(data, |data| - insertCount, |data|);
        assert data[..|data|] == data;
      }
    }

    method InsertRange(data: seq<(int, int)>, from: nat, to: nat) returns (thrown: bool)
      requires Valid() && from <= to <= |data| && contents == LastWritten(data[..from])
      requires forall i | 0 <= i < |data| :: data[i].0 != scheme.layout.sentinel
      modifies this
      ensures Valid() && (!thrown ==> contents == LastWritten(data[..to]))
    {
      for i := from to to
        invariant Valid() && contents == LastWritten(data[..i])
      {
        var kicks, lost;
        ghost var chain;
        thrown, kicks, lost, chain := Insert(data[i].0, data[i].1);
        if thrown {
          return;
        }
        assert data[..i + 1][..i] == data[..i];
      }
      thrown := false;
    }
  }

  /** A table of one slot that holds the pair (1, 10). */
  method OneSlotTable(maxKicks: nat, hash1: int -> nat, hash2: int -> nat, kicking: Kicking, rand: nat -> nat)
    returns (table: Table)
    ensures table.Valid() && table.scheme == Scheme(Layout(1, 1, 0), hash1, hash2) && table.maxKicks == maxKicks
    ensures fresh(table) && table.contents == map[1 := 10]
  {
    table := new Table(Scheme(Layout(1, 1, 0), hash1, hash2), maxKicks, kicking, rand);
    var thrown, kicks, lost;
    ghost var chain;
    assert table.InSome(0, 0) by {
      assert table.buckets[0][0].key == 0;
    }
    thrown, kicks, lost, chain := table.Insert(1, 10);
  }

  /** An insertion that throws loses its own pair or another one: in a table of one slot the two pairs change places
      with every kick, so that the limit decides which one is in hand at the end. */
  method LosesOther(maxKicks: nat, hash1: int -> nat, hash2: int -> nat, kicking: Kicking, rand: nat -> nat)
    returns (table: Table, thrown: bool, lost: Slot)
    ensures thrown && lost == if maxKicks % 2 == 0 then Slot(1, 10) else Slot(2, 20)
    ensures table.contents == if maxKicks % 2 == 0 then map[2 := 20] else map[1 := 10]
  {
    table := OneSlotTable(maxKicks, hash1, hash2, kicking, rand);
    table.OnlyOne(1);
    ghost var start := table.Holding(2, 20);
    table.TakesTurns(start, maxKicks + 1);
    var kicks;
    ghost var links;
    thrown, kicks, lost, links := table.Insert(2, 20);
    if !thrown {
      table.OneSlot(1, 2);
    }
  }

  /** Two keys with the same hashes find room in two buckets of one slot, whatever the limit on kicks. */
  method CollidingKeysFit(maxKicks: nat, kicking: Kicking, rand: nat -> nat) returns (table: Table)
    ensures table.Valid() && table.contents == map[1 := 10, 2 := 20]
    ensures table.scheme == Scheme(Layout(2, 1, 0), _ => 0, _ => 0)
  {
    table := new Table(Scheme(Layout(2, 1, 0), _ => 0, _ => 0), maxKicks, kicking, rand);
    PutNext(table, 1, 10);
    PutNext(table, 2, 20);
  }

  /** The next key, when not all slots are taken. */
  method PutNext(table: Table, key: int, payload: int)
    requires table.Valid() && table.scheme == Scheme(Layout(2, 1, 0), _ => 0, _ => 0)
    requires key != 0 && |table.contents| < 2
    modifies table
    ensures table.Valid() && table.contents == old(table.contents)[key := payload]
  {
    table.SomeFree(key);
    var thrown, kicks, lost;
    ghost var chain;
    thrown, kicks, lost, chain := table.Insert(key, payload);
  }

  /** The reserved key is reported as present in every new table. */
  method ReservedFound(scheme: Scheme, maxKicks: nat, kicking: Kicking, rand: nat -> nat)
    returns (table: Table, found: int)
    requires scheme.Valid()
    ensures table.contents == map[] && found == 1
  {
    table := new Table(scheme, maxKicks, kicking, rand);
    ghost var key := scheme.layout.sentinel;
    assert table.buckets[scheme.Home1(key)][0].key == key;
    found := table.Lookup(scheme.layout.sentinel);
  }
}
