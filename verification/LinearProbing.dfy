/** Linear probing over buckets: a pair goes to the first bucket from its home on that has a free slot or its key. The
    windows within which insertion and lookup probe are parameters and may differ; the home bucket is given by a hash
    function or a model. */
module LinearProbing {
  import opened PairBuckets

  datatype Scheme = Scheme(layout: Layout, hash: int -> nat, insertWindow: nat, lookupWindow: nat)
  {
    predicate Valid() {
      layout.Valid()
    }

    function Home(key: int): (b: nat)
      requires Valid()
      ensures b < layout.size
    {
      hash(key) % layout.size
    }

    /** The bucket `d` places after `home`, around the end of the directory. */
    function Spot(home: nat, d: nat): (b: nat)
      requires Valid()
      ensures b < layout.size
    {
      (home + d) % layout.size
    }

    /** The buckets that the probe comes to: from the remainder of the hash on, one after the other, around the end. */
    lemma ProbeSequence(key: int, d: nat)
      requires Valid()
      ensures Spot(Home(key), d) == (hash(key) + d) % layout.size
    {
      var n, h := layout.size, hash(key);
      var x, y := h + d, h % n + d;
      assert h == n * (h / n) + h % n && x == n * (x / n) + x % n && y == n * (y / n) + y % n;
      OnlyMultiple(n, x / n - y / n - h / n, y % n - x % n);
    }

    /** How far after `home` bucket `b` is. */
    function Distance(home: nat, b: nat): (d: nat)
      requires home < layout.size && b < layout.size
      ensures d < layout.size
    {
      if home <= b then b - home else b + layout.size - home
    }

    lemma SpotDistance(home: nat, b: nat)
      requires Valid() && home < layout.size && b < layout.size
      ensures Spot(home, Distance(home, b)) == b
    {
    }

    lemma DistanceSpot(home: nat, d: nat)
      requires Valid() && home < layout.size && d < layout.size
      ensures Distance(home, Spot(home, d)) == d
    {
      if home + d >= layout.size {
        OnceAround(layout.size, home + d);
      }
    }

    lemma OnceAround(n: int, x: int)
      requires 0 < n <= x < 2 * n
      ensures x % n == x - n
    {
      assert x == n * (x / n) + x % n;
      OnlyMultiple(n, x / n - 1, x - n - x % n);
    }

    /** Beyond the size of the directory the probe comes round again. */
    lemma SpotAgain(home: nat, d: nat)
      requires Valid() && d >= layout.size
      ensures Spot(home, d) == Spot(home, d - layout.size)
    {
      var n, x := layout.size, home + d;
      var y := x - n;
      assert x == n * (x / n) + x % n && y == n * (y / n) + y % n;
      OnlyMultiple(n, x / n - y / n - 1, y % n - x % n);
    }

    lemma OnlyMultiple(n: int, k: int, r: int)
      requires n > 0 && n * k == r && -n < r < n
      ensures k == 0
    {
      if k > 0 {
        AtLeastOnce(n, k);
      } else if k < 0 {
        AtLeastOnce(n, -k);
      }
    }

    lemma {:induction false} AtLeastOnce(n: int, k: int)
      requires n > 0 && k > 0
      ensures n * k >= n
    {
      if k > 1 {
        AtLeastOnce(n, k - 1);
      }
    }

    ghost predicate Full(slots: seq<Slot>) {
      forall i | 0 <= i < |slots| :: slots[i].key != layout.sentinel
    }

    /** Full of other keys. */
    ghost predicate Blocked(slots: seq<Slot>, key: int) {
      forall i | 0 <= i < |slots| :: slots[i].key != layout.sentinel && slots[i].key != key
    }

    /** All buckets less than `d` places after the home of the key are full. */
    ghost predicate FullUpTo(bs: Buckets, key: int, d: nat)
      requires Valid() && layout.Shape(bs)
    {
      forall j | 0 <= j < d :: Full(bs[Spot(Home(key), j)])
    }

    /** All buckets less than `d` places after the home of the key are full of other keys. */
    ghost predicate BlockedUpTo(bs: Buckets, key: int, d: nat)
      requires Valid() && layout.Shape(bs)
    {
      forall j | 0 <= j < d :: Blocked(bs[Spot(Home(key), j)], key)
    }

    /** Slot `i` of bucket `b` holds a key that the insertion window reaches from its home through full buckets. */
    ghost predicate Reached(bs: Buckets, b: nat, i: nat)
      requires Valid() && layout.Shape(bs) && b < |bs| && i < |bs[b]|
    {
      var key := bs[b][i].key;
      key != layout.sentinel ==>
        Distance(Home(key), b) < insertWindow && FullUpTo(bs, key, Distance(Home(key), b))
    }

    ghost predicate Represents(bs: Buckets, m: map<int, int>)
      requires Valid()
    {
      layout.Represents(bs, m) && forall b, i | 0 <= b < |bs| && 0 <= i < |bs[b]| :: Reached(bs, b, i)
    }

    /** The key is in the bucket `d` places after its home. */
    ghost predicate FoundAt(bs: Buckets, key: int, d: nat)
      requires Valid() && layout.Shape(bs)
    {
      d < layout.size && exists i :: 0 <= i < layout.bucketSize && bs[Spot(Home(key), d)][i].key == key
    }

    /** A key of the map is at one distance from its home, and all buckets before are full of other keys. */
    lemma OnePlace(bs: Buckets, m: map<int, int>, key: int) returns (d: nat)
      requires Valid() && Represents(bs, m) && key in m
      ensures FoundAt(bs, key, d) && d < insertWindow && BlockedUpTo(bs, key, d)
      ensures forall e :: FoundAt(bs, key, e) ==> e == d
    {
      var b: nat, i: nat :| b < |bs| && i < |bs[b]| && bs[b][i].key == key;
      assert Reached(bs, b, i) && layout.Sound(bs, m, b, i);
      var home := Home(key);
      d := Distance(home, b);
      SpotDistance(home, b);
      forall j | 0 <= j < d
        ensures Blocked(bs[Spot(home, j)], key)
      {
        DistanceSpot(home, j);
        assert Full(bs[Spot(home, j)]);
      }
      forall e: nat | FoundAt(bs, key, e)
        ensures e == d
      {
        DistanceSpot(home, e);
      }
    }

    lemma BlockedAgain(bs: Buckets, key: int, d: nat)
      requires Valid() && layout.Shape(bs) && BlockedUpTo(bs, key, d) && d >= layout.size
      ensures Blocked(bs[Spot(Home(key), d)], key)
    {
      SpotAgain(Home(key), d);
    }

    /** A bucket that the probe comes to and that has a free slot settles it: the key is there or nowhere. */
    lemma FreeSettles(bs: Buckets, m: map<int, int>, key: int, d: nat, i: nat)
      requires Valid() && Represents(bs, m) && key != layout.sentinel && i < layout.bucketSize
      requires BlockedUpTo(bs, key, d) && bs[Spot(Home(key), d)][i].key == layout.sentinel
      requires forall j | 0 <= j < i :: bs[Spot(Home(key), d)][j].key != key
      ensures key !in m && d < layout.size
    {
      if d >= layout.size {
        BlockedAgain(bs, key, d);
      }
      if key in m {
        var e := OnePlace(bs, m, key);
        assert Packed(bs[Spot(Home(key), d)], layout.sentinel);
        NotBlocked(bs, key, d, i);
      }
    }

    lemma NotBlocked(bs: Buckets, key: int, d: nat, i: nat)
      requires Valid() && layout.Shape(bs) && i < layout.bucketSize
      requires bs[Spot(Home(key), d)][i].key == layout.sentinel || bs[Spot(Home(key), d)][i].key == key
      ensures !Blocked(bs[Spot(Home(key), d)], key)
    {
    }

    /** A new key goes to a free slot of the first bucket that is not blocked, or the payload of a key is replaced. */
    lemma WriteSlot(bs: Buckets, m: map<int, int>, d: nat, i: nat, slot: Slot)
      requires Valid() && Represents(bs, m) && slot.key != layout.sentinel && i < layout.bucketSize && d < layout.size
      requires d < insertWindow && BlockedUpTo(bs, slot.key, d)
      requires forall j | 0 <= j < i :: bs[Spot(Home(slot.key), d)][j].key != layout.sentinel
      requires
        var old0 := bs[Spot(Home(slot.key), d)][i].key;
        old0 == slot.key || (old0 == layout.sentinel && slot.key !in m)
      ensures
        var b := Spot(Home(slot.key), d);
        Represents(layout.Written(bs, b, i, slot), m[slot.key := slot.payload])
    {
      var b := Spot(Home(slot.key), d);
      var r: Buckets := layout.Written(bs, b, i, slot);
      layout.WriteSlot(bs, m, b, i, slot);
      assert layout.Replaced(m, bs[b][i].key, slot) == m[slot.key := slot.payload];
      forall c, j | 0 <= c < |r| && 0 <= j < |r[c]|
        ensures Reached(r, c, j)
      {
        DistanceSpot(Home(slot.key), d);
        assert Reached(bs, c, j);
        StaysFull(bs, b, i, slot, r[c][j].key, Distance(Home(r[c][j].key), c));
      }
    }

    lemma StaysFull(bs: Buckets, b: nat, i: nat, slot: Slot, key: int, d: nat)
      requires Valid() && layout.Shape(bs) && b < layout.size && i < layout.bucketSize && slot.key != layout.sentinel
      ensures layout.Shape(layout.Written(bs, b, i, slot))
      ensures FullUpTo(bs, key, d) ==> FullUpTo(layout.Written(bs, b, i, slot), key, d)
      ensures BlockedUpTo(bs, key, d) ==> FullUpTo(bs, key, d)
    {
      if FullUpTo(bs, key, d) {
        forall j | 0 <= j < d
          ensures Full(layout.Written(bs, b, i, slot)[Spot(Home(key), j)])
        {
          assert Full(bs[Spot(Home(key), j)]);
        }
      }
      if BlockedUpTo(bs, key, d) {
        forall j | 0 <= j < d
          ensures Full(bs[Spot(Home(key), j)])
        {
          assert Blocked(bs[Spot(Home(key), j)], key);
        }
      }
    }
  }

  class Table {
    const scheme: Scheme
    var buckets: Buckets
    ghost var contents: map<int, int>

    ghost predicate Valid()
      reads this
    {
      scheme.Valid() && scheme.Represents(buckets, contents)
    }

    constructor (scheme: Scheme)
      requires scheme.Valid()
      ensures Valid() && contents == map[] && buckets == scheme.layout.Empty() && this.scheme == scheme
    {
      this.scheme := scheme;
      buckets, contents := scheme.layout.Empty(), map[];
    }

    /** The pair is put into bucket `b`, `d` places after the home of its key, unless that is full of other keys. */
    method InsertInBucket(b: nat, key: int, payload: int, ghost d: nat) returns (ok: bool)
      requires Valid() && key != scheme.layout.sentinel && b == scheme.Spot(scheme.Home(key), d)
      requires d < scheme.insertWindow
      requires scheme.BlockedUpTo(buckets, key, d)
      modifies this
      ensures Valid() && (ok <==> !scheme.Blocked(old(buckets)[b], key))
      ensures !ok ==> buckets == old(buckets) && contents == old(contents)
      ensures ok ==> contents == old(contents)[key := payload] && PutIn(old(buckets), Slot(key, payload), b)
    {
      for i := 0 to scheme.layout.bucketSize
        invariant Valid() && buckets == old(buckets) && contents == old(contents)
        invariant forall j | 0 <= j < i :: buckets[b][j].key != scheme.layout.sentinel && buckets[b][j].key != key
      {
        if buckets[b][i].key == scheme.layout.sentinel {
          scheme.FreeSettles(buckets, contents, key, d, i);
          Write(b, i, key, payload, d);
          return true;
        }
        if buckets[b][i].key == key {
          KnownSettles(key, d, i);
          Write(b, i, key, payload, d);
          return true;
        }
      }
      ok := false;
    }

    lemma KnownSettles(key: int, d: nat, i: nat)
      requires Valid() && key != scheme.layout.sentinel && scheme.BlockedUpTo(buckets, key, d)
      requires i < scheme.layout.bucketSize
      requires buckets[scheme.Spot(scheme.Home(key), d)][i].key == key
      ensures d < scheme.layout.size
    {
      if d >= scheme.layout.size {
        scheme.BlockedAgain(buckets, key, d);
      }
    }

    method Write(b: nat, i: nat, key: int, payload: int, ghost d: nat)
      requires Valid() && key != scheme.layout.sentinel && i < scheme.layout.bucketSize && d < scheme.layout.size
      requires b == scheme.Spot(scheme.Home(key), d) && d < scheme.insertWindow && scheme.BlockedUpTo(buckets, key, d)
      requires forall j | 0 <= j < i :: buckets[b][j].key != scheme.layout.sentinel
      requires buckets[b][i].key == key || (buckets[b][i].key == scheme.layout.sentinel && key !in contents)
      modifies this
      ensures Valid() && contents == old(contents)[key := payload] && PutIn(old(buckets), Slot(key, payload), b)
    {
      scheme.WriteSlot(buckets, contents, d, i, Slot(key, payload));
      contents := contents[key := payload];
      buckets := buckets[b := buckets[b][i := Slot(key, payload)]];
    }

    /** The pair is now in bucket `b`, in a free slot or in the slot of its key, and nothing else changed. */
    ghost predicate PutIn(bs: Buckets, slot: Slot, b: nat)
      requires scheme.layout.Shape(bs) && b < scheme.layout.size
      reads this
    {
      exists i ::
        && 0 <= i < scheme.layout.bucketSize && (bs[b][i].key == scheme.layout.sentinel || bs[b][i].key == slot.key)
        && buckets == scheme.layout.Written(bs, b, i, slot)
    }

    /** The pair is now `d` places after its home, and the buckets before are full of other keys. */
    ghost predicate PutFirst(bs: Buckets, slot: Slot, d: nat)
      requires scheme.Valid() && scheme.layout.Shape(bs)
      reads this
    {
      scheme.BlockedUpTo(bs, slot.key, d) && PutIn(bs, slot, scheme.Spot(scheme.Home(slot.key), d))
    }

    /** The pair goes to the first bucket from its home on that is not full of other keys. Only if there is none within
        the window does the insertion fail, and then nothing changes. */
    method Insert(key: int, payload: int) returns (thrown: bool)
      requires Valid() && key != scheme.layout.sentinel
      modifies this
      ensures Valid() && (thrown <==> scheme.BlockedUpTo(old(buckets), key, scheme.insertWindow))
      ensures thrown ==> buckets == old(buckets) && contents == old(contents)
      ensures !thrown ==> contents == old(contents)[key := payload]
      ensures !thrown ==> exists d: nat :: d < scheme.insertWindow && PutFirst(old(buckets), Slot(key, payload), d)
    {
      var start := scheme.Home(key);
      var index := start;
      while index - start < scheme.insertWindow
        invariant start <= index && Valid() && buckets == old(buckets) && contents == old(contents)
        invariant scheme.BlockedUpTo(buckets, key, index - start) && index - start <= scheme.insertWindow
        decreases scheme.insertWindow - (index - start)
      {
        ghost var d: nat := index - start;
        var ok := InsertInBucket(index % scheme.layout.size, key, payload, d);
        if ok {
          assert !scheme.Blocked(old(buckets)[scheme.Spot(start, d)], key);
          assert PutFirst(old(buckets), Slot(key, payload), d);
          return false;
        }
        index := index + 1;
      }
      thrown := true;
    }

    /** The key is in the map, less than `window` places from its home. */
    ghost predicate Within(key: int, window: nat)
      requires Valid()
      reads this
    {
      key in contents && exists d: nat :: d < window && scheme.FoundAt(buckets, key, d)
    }

    /** 1 exactly for the keys of the map that are less than the lookup window away from their home. */
    method Lookup(key: int) returns (found: int)
      requires Valid()
      ensures found == 0 || found == 1
      ensures found == 1 <==> Within(key, scheme.lookupWindow)
    {
      var start := scheme.Home(key);
      var index := start;
      while index < start + scheme.lookupWindow
        invariant start <= index <= start + scheme.lookupWindow
        invariant scheme.BlockedUpTo(buckets, key, index - start)
      {
        var settled;
        settled, found := LookupInBucket(index % scheme.layout.size, key, index - start);
        if settled {
          return;
        }
        index := index + 1;
      }
      NotWithin(key, scheme.lookupWindow);
      found := 0;
    }

    /** Bucket `b`, `d` places after the home of the key, is searched up to its first free slot. */
    method LookupInBucket(b: nat, key: int, ghost d: nat) returns (settled: bool, found: int)
      requires Valid() && b == scheme.Spot(scheme.Home(key), d) && d < scheme.lookupWindow
      requires scheme.BlockedUpTo(buckets, key, d)
      ensures !settled ==> scheme.Blocked(buckets[b], key)
      ensures settled ==> (found == 0 || found == 1) && (found == 1 <==> Within(key, scheme.lookupWindow))
    {
      for i := 0 to scheme.layout.bucketSize
        invariant forall j | 0 <= j < i :: buckets[b][j].key != scheme.layout.sentinel && buckets[b][j].key != key
      {
        if buckets[b][i].key == scheme.layout.sentinel {
          if key != scheme.layout.sentinel {
            scheme.FreeSettles(buckets, contents, key, d, i);
          }
          return true, 0;
        }
        if buckets[b][i].key == key {
          KnownSettles(key, d, i);
          assert scheme.layout.Sound(buckets, contents, b, i) && scheme.FoundAt(buckets, key, d);
          return true, 1;
        }
      }
      settled, found := false, 0;
    }

    lemma NotWithin(key: int, window: nat)
      requires Valid() && scheme.BlockedUpTo(buckets, key, window)
      ensures !Within(key, window)
    {
      forall d: nat | d < window
        ensures !scheme.FoundAt(buckets, key, d)
      {
        assert scheme.Blocked(buckets[scheme.Spot(scheme.Home(key), d)], key);
      }
    }

    /** If the lookup window covers the insertion window, every key of the map is found. */
    lemma EveryKeyWithin(key: int)
      requires Valid() && scheme.insertWindow <= scheme.lookupWindow
      ensures Within(key, scheme.lookupWindow) <==> key in contents
    {
      if key in contents {
        var d := scheme.OnePlace(buckets, contents, key);
      }
    }

    /** A key of the map is found exactly if its one distance from home is less than the lookup window. */
    lemma WithinExactly(key: int, d: nat)
      requires Valid() && key in contents && scheme.FoundAt(buckets, key, d)
      ensures Within(key, scheme.lookupWindow) <==> d < scheme.lookupWindow
    {
      var e := scheme.OnePlace(buckets, contents, key);
    }

    /** The pairs are inserted in order, in two phases of which the second is timed. */
    method Build(data: seq<(int, int)>, insertCount: nat) returns (thrown: bool)
      requires Valid() && contents == map[] && insertCount <= |data|
      requires forall i | 0 <= i < |data| :: data[i].0 != scheme.layout.sentinel
      modifies this
      ensures Valid() && (!thrown ==> contents == LastWritten(data) && HasLast(contents, data))
    {
      LastWrittenHasLast(data);
      thrown := InsertRange(data, 0, |data| - insertCount);
      if !thrown {
        thrown := InsertRange(data, |data| - insertCount, |data|);
        assert data[..|data|] == data;
      }
    }

    method InsertRange(data: seq<(int, int)>, from: nat, to: nat) returns (thrown: bool)
      requires Valid() && from <= to <= |data| && contents == LastWritten(data[..from])
      requires forall i | 0 <= i < |data| :: data[i].0 != scheme.layout.sentinel
      modifies this
      ensures Valid() && (!thrown ==> contents == LastWritten(data[..to]))
    {
      for i := from to to
        invariant Valid() && contents == LastWritten(data[..i])
      {
        thrown := Insert(data[i].0, data[i].1);
        if thrown {
          return;
        }
        assert data[..i + 1][..i] == data[..i];
      }
      thrown := false;
    }
  }

  /** `n` buckets of one slot, with all keys at home in the first. */
  function OneSlotScheme(n: nat, insertWindow: nat, lookupWindow: nat): Scheme {
    Scheme(Layout(n, 1, 0), _ => 0, insertWindow, lookupWindow)
  }

  /** The keys from 1 to `k` are in the first `k` buckets, one in each, and the other buckets are free. */
  ghost predicate InARow(bs: Buckets, k: nat) {
    && k <= |bs|
    && (forall b | 0 <= b < |bs| :: |bs[b]| == 1)
    && (forall b | 0 <= b < |bs| :: bs[b][0].key == if b < k then b + 1 else 0)
  }

  /** The buckets before are full of other keys, and the next one is free. */
  lemma NextDistance(scheme: Scheme, bs: Buckets, k: nat, d: nat)
    requires scheme.Valid() && scheme.layout.bucketSize == 1 && scheme.layout.sentinel == 0
    requires scheme.Home(k + 1) == 0 && scheme.layout.Shape(bs) && InARow(bs, k) && k < |bs|
    requires scheme.BlockedUpTo(bs, k + 1, d)
    ensures d <= k && scheme.Spot(0, d) == d
  {
    assert !scheme.Blocked(bs[scheme.Spot(0, k)], k + 1);
  }

  lemma PlacedInARow(table: Table, bs: Buckets, k: nat, d: nat)
    requires table.scheme.Valid() && table.scheme.layout.bucketSize == 1 && table.scheme.layout.sentinel == 0
    requires table.scheme.layout.Shape(bs) && InARow(bs, k) && d <= k < |bs|
    requires table.PutIn(bs, Slot(k + 1, 0), d)
    ensures InARow(table.buckets, k + 1)
  {
    assert bs[d][0].key == if d < k then d + 1 else 0;
  }

  /** The next key goes to the next bucket. */
  lemma NextInARow(table: Table, bs: Buckets, k: nat, d: nat)
    requires table.scheme.Valid() && table.scheme.layout.bucketSize == 1 && table.scheme.layout.sentinel == 0
    requires table.scheme.Home(k + 1) == 0 && table.scheme.layout.Shape(bs) && InARow(bs, k) && k < |bs|
    requires table.PutFirst(bs, Slot(k + 1, 0), d)
    ensures InARow(table.buckets, k + 1)
  {
    NextDistance(table.scheme, bs, k, d);
    PlacedInARow(table, bs, k, d);
  }

  /** Lookup can miss a key of the table: with all keys at home in one bucket and one slot in each, the key after as
      many keys as the lookup window has buckets is displaced too far, however large the insertion window is. */
  method MissesKey(n: nat, insertWindow: nat, lookupWindow: nat) returns (table: Table, found: int)
    requires lookupWindow < insertWindow && lookupWindow < n
    ensures table.Valid() && table.scheme == OneSlotScheme(n, insertWindow, lookupWindow)
    ensures lookupWindow + 1 in table.contents && found == 0
  {
    table := new Table(OneSlotScheme(n, insertWindow, lookupWindow));
    for k := 0 to lookupWindow + 1
      invariant table.Valid() && table.scheme == OneSlotScheme(n, insertWindow, lookupWindow) && fresh(table)
      invariant InARow(table.buckets, k) && (k > 0 ==> k in table.contents)
    {
      InsertNext(table, k);
    }
    LastIsFar(table, lookupWindow);
    found := table.Lookup(lookupWindow + 1);
  }

  method InsertNext(table: Table, k: nat)
    requires table.Valid() && table.scheme.layout.bucketSize == 1 && table.scheme.layout.sentinel == 0
    requires table.scheme.Home(k + 1) == 0 && InARow(table.buckets, k) && k < |table.buckets|
    requires k < table.scheme.insertWindow
    modifies table
    ensures table.Valid() && InARow(table.buckets, k + 1) && k + 1 in table.contents
  {
    ghost var bs: Buckets := table.buckets;
    assert !table.scheme.Blocked(bs[table.scheme.Spot(0, k)], k + 1);
    var thrown := table.Insert(k + 1, 0);
    ghost var d: nat :| table.PutFirst(bs, Slot(k + 1, 0), d);
    NextInARow(table, bs, k, d);
  }

  lemma LastIsFar(table: Table, k: nat)
    requires table.Valid() && table.scheme.layout.bucketSize == 1 && table.scheme.layout.sentinel == 0
    requires table.scheme.Home(k + 1) == 0 && InARow(table.buckets, k + 1)
    ensures !table.Within(k + 1, k)
  {
  }
}
