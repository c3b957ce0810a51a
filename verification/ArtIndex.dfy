/** The index as its users see it: built over the tuples of a relation, it agrees with the map from keys to tuple
    ids. */
module ArtIndex {
  import opened Bytes
  import opened ArtTrie
  import opened ArtLayout
  import opened ArtNode
  import opened ArtTree
  import opened Gates

  /** The rows of a relation with these integer keys. */
  function TableOf(keys: seq<nat>, len: nat): Table {
    Table(seq(|keys|, i requires 0 <= i < |keys| => SwapBytes(keys[i], len)), len)
  }

  ghost predicate DistinctKeys(keys: seq<nat>, len: nat) {
    && (forall i | 0 <= i < |keys| :: keys[i] < Range(len))
    && (forall i, j | 0 <= i < |keys| && 0 <= j < |keys| && i != j :: keys[i] != keys[j])
  }

  lemma TableOfValid(keys: seq<nat>, len: nat)
    requires DistinctKeys(keys, len)
    ensures TableOf(keys, len).Valid()
    ensures forall i | 0 <= i < |keys| :: Value(TableOf(keys, len).rows[i]) == keys[i]
  {
    var t := TableOf(keys, len);
    forall i | 0 <= i < |keys|
      ensures Value(t.rows[i]) == keys[i]
    {
      SwapBytesRoundTrip(keys[i], len);
    }
    forall i: nat, j: nat | i < |t.rows| && j < |t.rows| && i != j
      ensures t.Differ(i, j)
    {
      assert Value(t.rows[i]) == keys[i] && Value(t.rows[j]) == keys[j];
    }
  }

  class Art {
    var data: Table
    var tree: Ref
    ghost var tuples: set<nat>  // the ids in the index

    ghost predicate Valid()
      reads this, if tree.Inner? then {tree.node} + tree.node.Repr else {}
    {
      && data.Valid() && data.len <= MAX_PREFIX
      && ValidRef(tree) && data.Represents(TrieOf(tree), 0, tuples)
      && (forall t | t in tuples :: t < |data.rows|)
    }

    constructor Build(keys: seq<nat>, len: nat)
      requires len <= MAX_PREFIX && DistinctKeys(keys, len)
      ensures Valid() && data == TableOf(keys, len)
      ensures tuples == Upto(|keys|)
    {
      data := TableOf(keys, len);
      tree := Null;
      tuples := {};
      new;
      TableOfValid(keys, len);
      Load();
      assert Opened(0);
    }

    /** The index holds the first `i` tuples. */
    ghost predicate Loaded(i: nat)
      reads this, if tree.Inner? then {tree.node} + tree.node.Repr else {}
    {
      forall u {:trigger Opened(u)} | Opened(u) :: Valid() && forall t: nat :: t in tuples <==> t < i
    }

    /** The loop of the construction: the tuples go in one after the other. */
    method Load()
      requires Loaded(0) && tree == Null
      modifies this
      ensures Loaded(|data.rows|) && data == old(data)
    {
      for i := 0 to |data.rows|
        invariant Loaded(i) && data == old(data) && fresh(ReprOf(tree))
      {
        LoadOne(i);
      }
    }

    method LoadOne(tid: nat)
      requires Loaded(tid) && tid < |data.rows|
      modifies this, ReprOf(tree)
      ensures Loaded(tid + 1) && data == old(data) && fresh(ReprOf(tree) - old(ReprOf(tree)))
    {
      assert Opened(0);
      InsertTuple(tid);
    }

    method InsertTuple(tid: nat)
      requires Valid() && tid < |data.rows| && tid !in tuples
      modifies this, ReprOf(tree)
      ensures Valid() && data == old(data) && tuples == old(tuples) + {tid}
      ensures fresh(ReprOf(tree) - old(ReprOf(tree)))
    {
      ghost var t := TrieOf(tree);
      data.InsertRepresents(t, 0, tuples, tid);
      tree := Insert(data, tree, data.rows[tid], 0, tid);
      tuples := tuples + {tid};
    }

    method EraseKey(key: nat)
      requires Valid()
      modifies this, ReprOf(tree)
      ensures Valid() && data == old(data)
      ensures tuples == data.Without(old(tuples), SwapBytes(key, data.len))
      ensures fresh(ReprOf(tree) - old(ReprOf(tree)))
    {
      ghost var t := TrieOf(tree);
      var bytes := SwapBytes(key, data.len);
      data.EraseRepresents(t, 0, tuples, bytes);
      tree := Erase(data, tree, bytes, 0);
      tuples := data.Without(tuples, bytes);
    }

    /** The id of the tuple with this key, or the value of the null leaf if there is none. */
    method EqualityLookup(key: nat) returns (value: nat)
      requires Valid()
      ensures (exists t :: t in tuples && data.rows[t] == SwapBytes(key, data.len)) ==>
                value in tuples && data.rows[value] == SwapBytes(key, data.len)
      ensures !(exists t :: t in tuples && data.rows[t] == SwapBytes(key, data.len)) ==> value == 0
    {
      var bytes := SwapBytes(key, data.len);
      data.FindCorrect(TrieOf(tree), 0, tuples, bytes);
      var leaf := Lookup(data, tree, bytes);
      value := if leaf.Pseudo? then leaf.tid else 0;
    }

    /** The optimistic and the pessimistic search agree on every key. */
    method LookupsAgree(key: nat) returns (a: Ref, b: Ref)
      requires Valid()
      ensures a == b
    {
      var bytes := SwapBytes(key, data.len);
      data.FindCorrect(TrieOf(tree), 0, tuples, bytes);
      a := Lookup(data, tree, bytes);
      b := LookupPessimistic(data, tree, bytes);
    }

    /** The tuple with the numerically smallest key. */
    method MinimumTuple() returns (r: Ref)
      requires Valid()
      ensures tuples == {} ==> r == Null
      ensures tuples != {} ==> r.Pseudo? && r.tid in tuples
      ensures forall t | t in tuples && t != r.tid :: Value(data.rows[r.tid]) < Value(data.rows[t])
    {
      ghost var t := TrieOf(tree);
      if t != Nil {
        data.HasLeaves(t, 0, tuples);
        data.LeftmostIsLeast(t, 0, tuples);
        LessIsNumeric();
      }
      r := Minimum(tree, data);
    }

    method MaximumTuple() returns (r: Ref)
      requires Valid()
      ensures tuples == {} ==> r == Null
      ensures tuples != {} ==> r.Pseudo? && r.tid in tuples
      ensures forall t | t in tuples && t != r.tid :: Value(data.rows[t]) < Value(data.rows[r.tid])
    {
      ghost var t := TrieOf(tree);
      if t != Nil {
        data.HasLeaves(t, 0, tuples);
        data.RightmostIsGreatest(t, 0, tuples);
        LessIsNumeric();
      }
      r := Maximum(tree, data);
    }

    lemma LessIsNumeric()
      requires Valid()
      ensures forall t, u | t in tuples && u in tuples ::
                  Less(data.rows[t], data.rows[u]) <==> Value(data.rows[t]) < Value(data.rows[u])
    {
      forall t, u | t in tuples && u in tuples
        ensures Less(data.rows[t], data.rows[u]) <==> Value(data.rows[t]) < Value(data.rows[u])
      {
        OrderIsNumeric(data.rows[t], data.rows[u]);
      }
    }
  }

  /** Two indexes over one relation with the same tuples hold the same trie, whatever was inserted and erased on the
      way: only node kinds and slot positions may differ. */
  lemma SameTuplesSameTrie(a: Art, b: Art)
    requires a.Valid() && b.Valid() && a.data == b.data && a.tuples == b.tuples
    ensures TrieOf(a.tree) == TrieOf(b.tree)
  {
    a.data.Canonical(TrieOf(a.tree), TrieOf(b.tree), 0, a.tuples);
  }

  /** The pointer reached from `r` by following child bytes. */
  ghost function Walk(r: Ref, path: seq<byte>): (w: Ref)
    requires ValidRef(r)
    reads if r.Inner? then {r.node} + r.node.Repr else {}
    ensures ValidRef(w)
    decreases |path|
  {
    if path == [] then r
    else if r.Inner? && path[0] in r.node.kids then
      KidRef(r.node, path[0]);
      assert r.node.kids[path[0]].Inner? ==> r.node.kids[path[0]].node in r.node.Repr;
      Walk(r.node.kids[path[0]], path[1..])
    else Null
  }

  /** Every node of every index is laid out right, as full as its kind allows, and keeps its whole prefix. */
  lemma EveryNode(a: Art, path: seq<byte>)
    requires a.Valid() && Walk(a.tree, path).Inner?
    ensures var n := Walk(a.tree, path).node;
            && n.Layout() && n.prefixLength < 9 && |n.kids| == n.count
            && (n.kind == Node4 ==> 2 <= n.count <= 4) && (n.kind == Node16 ==> 4 <= n.count <= 16)
            && (n.kind == Node48 ==> 13 <= n.count <= 48) && (n.kind == Node256 ==> 38 <= n.count <= 256)
  {
    Inside(Walk(a.tree, path).node);
    Walk(a.tree, path).node.Unlock();
  }
}
