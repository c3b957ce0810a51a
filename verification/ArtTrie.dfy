/** The abstract radix tree: a path-compressed trie over fixed-length keys, the set of tuples it
    represents, and what inserting and erasing a tuple do to it. The physical tree of ArtTree is
    proved against these functions. */
module ArtTrie {
  import opened Bytes

  /** An inner node is read as its compressed path and its non-null children by key byte. */
  datatype Trie = Nil | Leaf(tid: nat) | Branch(prefix: Key, kids: map<byte, Trie>)

  /** The number of leading bytes of `p` that `key` has from position `d` on. */
  function Matching(p: Key, key: Key, d: nat): (m: nat)
    requires d + |p| <= |key|
    ensures m <= |p|
    ensures forall i {:trigger key[i]} | d <= i < d + m :: p[i - d] == key[i]
    ensures m < |p| ==> p[m] != key[d + m]
  {
    if p == [] || p[0] != key[d] then 0 else 1 + Matching(p[1..], key, d + 1)
  }

  lemma {:induction false} MatchingIs(p: Key, key: Key, d: nat, m: nat)
    requires d + |p| <= |key| && m <= |p|
    requires forall i | 0 <= i < m :: p[i] == key[d + i]
    requires m < |p| ==> p[m] != key[d + m]
    ensures Matching(p, key, d) == m
  {
    if p != [] && m > 0 {
      assert p[0] == key[d + 0];
      forall i | 0 <= i < m - 1
        ensures p[1..][i] == key[d + 1 + i]
      {
        assert p[i + 1] == key[d + (i + 1)];
      }
      MatchingIs(p[1..], key, d + 1, m - 1);
    }
  }

  /** The indexed relation: the key bytes of each tuple, all `len` long and no two alike. */
  datatype Table = Table(rows: seq<Key>, len: nat) {
    ghost predicate Valid() {
      && (forall t :: 0 <= t < |rows| ==> |rows[t]| == len)
      && (forall t, u {:trigger Differ(t, u)} | 0 <= t < |rows| && 0 <= u < |rows| && t != u :: Differ(t, u))
    }

    ghost predicate Differ(t: nat, u: nat)
      requires t < |rows| && u < |rows|
    {
      rows[t] != rows[u]
    }

    /** Key byte `pos` of tuple `tid`. */
    ghost function At(tid: nat, pos: nat): byte {
      if tid < |rows| && pos < |rows[tid]| then rows[tid][pos] else 0
    }

    /** The tuples of `s` whose key byte `pos` is `b`. */
    ghost function Below(s: set<nat>, pos: nat, b: byte): set<nat> {
      set t | t in s && At(t, pos) == b
    }

    /** The tuples of `s` but the one whose key is `key`. */
    ghost function Without(s: set<nat>, key: Key): set<nat> {
      set t | t in s && (t < |rows| ==> rows[t] != key)
    }

    /** Every tuple of `s` exists and has `key`'s first `d` bytes. */
    ghost predicate Agree(s: set<nat>, key: Key, d: nat) {
      && |key| == len && d <= len
      && (forall t | t in s :: t < |rows|)
      && (forall t, i: nat | t in s && i < d :: At(t, i) == key[i])
    }

    /** The tuples of `s` have the bytes `p` from position `d` on. */
    ghost predicate Shared(s: set<nat>, p: Key, d: nat) {
      forall u: nat, i: nat {:trigger At(u, i)} | u in s && d <= i < d + |p| :: At(u, i) == p[i - d]
    }

    /** Byte `pos` of every tuple of `s` is one of `bytes`. */
    ghost predicate SplitBy(s: set<nat>, pos: nat, bytes: set<byte>) {
      forall u: nat {:trigger At(u, pos)} | u in s :: At(u, pos) in bytes
    }

    /** `t`, at depth `d`, is the path-compressed trie of the tuples `s`: a node's prefix is common to
        the tuples below it, its children split them by the next byte, and it has two at least. */
    ghost predicate Represents(t: Trie, d: nat, s: set<nat>)
      decreases t, 1
    {
      match t
      case Nil => s == {}
      case Leaf(tid) => s == {tid} && tid < |rows| && d <= len
      case Branch(p, kids) =>
        && d + |p| < len
        && |kids| >= 2
        && Shared(s, p, d)
        && SplitBy(s, d + |p|, kids.Keys)
        && (forall b {:trigger KidFits(kids, b, d + |p|, s)} | b in kids :: KidFits(kids, b, d + |p|, s))
    }

    /** Child `b` of a node that branches at byte `pos` of the tuples `s`. */
    ghost predicate KidFits(kids: map<byte, Trie>, b: byte, pos: nat, s: set<nat>)
      requires b in kids
      decreases kids[b], 2
    {
      kids[b] != Nil && Represents(kids[b], pos + 1, Below(s, pos, b))
    }

    /** A trie that is not empty represents some tuple. */
    lemma {:induction false} NonEmpty(t: Trie, d: nat, s: set<nat>)
      requires Represents(t, d, s) && t != Nil
      ensures exists u :: u in s
      decreases t, 1
    {
      match t
      case Leaf(tid) => assert tid in s;
      case Branch(p, kids) =>
        var b, _ := TwoKeys(kids);
        assert KidFits(kids, b, d + |p|, s);
        var u := KidNonEmpty(kids, b, d + |p|, s);
    }

    /** Every child has a tuple below it. */
    lemma {:induction false} KidNonEmpty(kids: map<byte, Trie>, b: byte, pos: nat, s: set<nat>) returns (u: nat)
      requires b in kids && KidFits(kids, b, pos, s)
      ensures u in s && At(u, pos) == b
      decreases kids[b], 2
    {
      NonEmpty(kids[b], pos + 1, Below(s, pos, b));
      u :| u in Below(s, pos, b);
    }

    /** Below a branch there are two tuples that differ right after its prefix. */
    lemma TwoTuples(t: Trie, d: nat, s: set<nat>) returns (u: nat, v: nat)
      requires Represents(t, d, s) && t.Branch?
      ensures u in s && v in s && At(u, d + |t.prefix|) != At(v, d + |t.prefix|)
    {
      var b, c := TwoKeys(t.kids);
      assert KidFits(t.kids, b, d + |t.prefix|, s) && KidFits(t.kids, c, d + |t.prefix|, s);
      u := KidNonEmpty(t.kids, b, d + |t.prefix|, s);
      v := KidNonEmpty(t.kids, c, d + |t.prefix|, s);
    }

    /** The trie of a set of tuples is unique, so how it was built leaves no trace. */
    lemma {:induction false} Canonical(t: Trie, u: Trie, d: nat, s: set<nat>)
      requires Represents(t, d, s) && Represents(u, d, s)
      ensures t == u
      decreases t
    {
      if t.Branch? && u.Branch? {
        NoLonger(t, u, d, s);
        NoLonger(u, t, d, s);
        SamePrefix(t, u, d, s);
        SameKeys(t, u, d, s);
        SameKeys(u, t, d, s);
        forall b | b in t.kids
          ensures t.kids[b] == u.kids[b]
        {
          assert KidFits(t.kids, b, d + |t.prefix|, s) && KidFits(u.kids, b, d + |t.prefix|, s);
          Canonical(t.kids[b], u.kids[b], d + |t.prefix| + 1, Below(s, d + |t.prefix|, b));
        }
        assert t.kids == u.kids;
      } else {
        if t != Nil { NonEmpty(t, d, s); }
        if u != Nil { NonEmpty(u, d, s); }
        if t.Branch? { var _, _ := TwoTuples(t, d, s); }
        if u.Branch? { var _, _ := TwoTuples(u, d, s); }
      }
    }

    lemma NoLonger(t: Trie, u: Trie, d: nat, s: set<nat>)
      requires Represents(t, d, s) && Represents(u, d, s) && t.Branch? && u.Branch?
      ensures |u.prefix| <= |t.prefix|
    {
      var a, b := TwoTuples(t, d, s);
    }

    lemma SamePrefix(t: Trie, u: Trie, d: nat, s: set<nat>)
      requires Represents(t, d, s) && Represents(u, d, s) && t.Branch? && u.Branch?
      requires |t.prefix| == |u.prefix|
      ensures t.prefix == u.prefix
    {
      NonEmpty(t, d, s);
      var a :| a in s;
      forall i | 0 <= i < |t.prefix|
        ensures t.prefix[i] == u.prefix[i]
      {
        assert At(a, d + i) == t.prefix[d + i - d];
      }
    }

    lemma SameKeys(t: Trie, u: Trie, d: nat, s: set<nat>)
      requires Represents(t, d, s) && Represents(u, d, s) && t.Branch? && u.Branch? && t.prefix == u.prefix
      ensures t.kids.Keys <= u.kids.Keys
    {
      forall b | b in t.kids
        ensures b in u.kids
      {
        assert KidFits(t.kids, b, d + |t.prefix|, s);
        var a := KidNonEmpty(t.kids, b, d + |t.prefix|, s);
      }
    }

    // ---------------------------------------------------------------- insertion

    /** The key bytes fit, and the search path of tuple `tid` does not end in a leaf with the same key. */
    ghost predicate CanInsert(t: Trie, d: nat, tid: nat)
      requires Valid() && tid < |rows|
      decreases t
    {
      match t
      case Nil => true
      case Leaf(e) => e < |rows| && d <= len && Matching(rows[e][d..], rows[tid], d) < len - d
      case Branch(p, kids) =>
        d + |p| < len &&
        (Matching(p, rows[tid], d) == |p| && rows[tid][d + |p|] in kids ==>
           CanInsert(kids[rows[tid][d + |p|]], d + |p| + 1, tid))
    }

    /** The trie with tuple `tid` added. */
    ghost function Insert(t: Trie, d: nat, tid: nat): Trie
      requires Valid() && tid < |rows| && CanInsert(t, d, tid)
      decreases t
    {
      match t
      case Nil => Leaf(tid)
      case Leaf(e) => SplitLeaf(e, tid, d)
      case Branch(p, kids) =>
        if Matching(p, rows[tid], d) < |p| then SplitPrefix(t, d, tid)
        else
          var b := rows[tid][d + |p|];
          t.(kids := kids[b := if b in kids then Insert(kids[b], d + |p| + 1, tid) else Leaf(tid)])
    }

    /** Two leaves where there was one: a branch at the first byte in which they differ. */
    ghost function SplitLeaf(e: nat, tid: nat, d: nat): Trie
      requires Valid() && e < |rows| && tid < |rows| && d <= len && Matching(rows[e][d..], rows[tid], d) < len - d
    {
      var m := Matching(rows[e][d..], rows[tid], d);
      Branch(rows[tid][d..d + m], map[rows[e][d + m] := Leaf(e), rows[tid][d + m] := Leaf(tid)])
    }

    /** The prefix of a branch is broken up where the new key leaves it. */
    ghost function SplitPrefix(t: Trie, d: nat, tid: nat): Trie
      requires Valid() && tid < |rows| && t.Branch? && d + |t.prefix| < len
      requires Matching(t.prefix, rows[tid], d) < |t.prefix|
    {
      var m := Matching(t.prefix, rows[tid], d);
      Branch(t.prefix[..m], map[t.prefix[m] := t.(prefix := t.prefix[m + 1..]), rows[tid][d + m] := Leaf(tid)])
    }

    /** Inserting an absent tuple: the trie of the tuples `s` becomes the trie of `s` and the new tuple. */
    lemma {:induction false} InsertRepresents(t: Trie, d: nat, s: set<nat>, tid: nat)
      requires Valid() && tid < |rows| && tid !in s
      requires Represents(t, d, s) && Agree(s, rows[tid], d)
      ensures CanInsert(t, d, tid) && Represents(Insert(t, d, tid), d, s + {tid})
      decreases t
    {
      match t
      case Nil =>
      case Leaf(e) =>
        SplitLeafFits(e, tid, d);
      case Branch(p, kids) =>
        if Matching(p, rows[tid], d) == |p| && rows[tid][d + |p|] in kids {
          InsertInChild(t, d, s, tid);
        } else {
          InsertHere(t, d, s, tid);
        }
    }

    lemma InsertHere(t: Trie, d: nat, s: set<nat>, tid: nat)
      requires Valid() && tid < |rows| && tid !in s
      requires Represents(t, d, s) && Agree(s, rows[tid], d) && t.Branch?
      requires Matching(t.prefix, rows[tid], d) < |t.prefix| || rows[tid][d + |t.prefix|] !in t.kids
      ensures CanInsert(t, d, tid) && Represents(Insert(t, d, tid), d, s + {tid})
    {
      var m := Matching(t.prefix, rows[tid], d);
      if m < |t.prefix| {
        SplitPrefixFits(t, d, s, tid, m);
      } else {
        AddKidFits(t, d, s, tid);
      }
    }

    lemma {:induction false} InsertInChild(t: Trie, d: nat, s: set<nat>, tid: nat)
      requires Valid() && tid < |rows| && tid !in s
      requires Represents(t, d, s) && Agree(s, rows[tid], d) && t.Branch?
      requires Matching(t.prefix, rows[tid], d) == |t.prefix| && rows[tid][d + |t.prefix|] in t.kids
      ensures CanInsert(t, d, tid) && Represents(Insert(t, d, tid), d, s + {tid})
      decreases t, 0
    {
      var b := rows[tid][d + |t.prefix|];
      assert KidFits(t.kids, b, d + |t.prefix|, s);
      AgreeBelow(s, rows[tid], d, t.prefix);
      InsertRepresents(t.kids[b], d + |t.prefix| + 1, Below(s, d + |t.prefix|, b), tid);
      InsertStep(t, d, tid);
      ReplaceKidFits(t, d, s, tid, Insert(t.kids[b], d + |t.prefix| + 1, tid));
    }

    /** The step of Insert that descends. */
    lemma InsertStep(t: Trie, d: nat, tid: nat)
      requires Valid() && tid < |rows| && t.Branch? && d + |t.prefix| < len
      requires Matching(t.prefix, rows[tid], d) == |t.prefix| && rows[tid][d + |t.prefix|] in t.kids
      requires CanInsert(t.kids[rows[tid][d + |t.prefix|]], d + |t.prefix| + 1, tid)
      ensures CanInsert(t, d, tid)
      ensures var b := rows[tid][d + |t.prefix|];
              Insert(t, d, tid) == t.(kids := t.kids[b := Insert(t.kids[b], d + |t.prefix| + 1, tid)])
    {
    }

    /** Two tuples with the same first `d` bytes differ in a later byte. */
    lemma LeafDiffers(e: nat, tid: nat, d: nat)
      requires Valid() && e < |rows| && tid < |rows| && e != tid && d <= len
      requires Agree({e}, rows[tid], d)
      ensures Matching(rows[e][d..], rows[tid], d) < len - d
    {
      var m := Matching(rows[e][d..], rows[tid], d);
      assert Differ(e, tid);
      if m == len - d {
        forall i | 0 <= i < len
          ensures rows[e][i] == rows[tid][i]
        {
          if i < d {
            assert At(e, i) == rows[tid][i];
          } else {
            assert rows[e][d..][i - d] == rows[tid][i];
          }
        }
      }
    }

    lemma SplitLeafFits(e: nat, tid: nat, d: nat)
      requires Valid() && e < |rows| && tid < |rows| && e != tid && Agree({e}, rows[tid], d)
      ensures Matching(rows[e][d..], rows[tid], d) < len - d
      ensures Represents(SplitLeaf(e, tid, d), d, {e} + {tid})
    {
      LeavesShare(e, tid, d);
      TwoLeavesFit(e, tid, d, Matching(rows[e][d..], rows[tid], d), SplitLeaf(e, tid, d));
    }

    /** Two rows share the bytes up to where they first differ. */
    lemma LeavesShare(e: nat, tid: nat, d: nat)
      requires Valid() && e < |rows| && tid < |rows| && e != tid && Agree({e}, rows[tid], d)
      ensures
        var m := Matching(rows[e][d..], rows[tid], d);
        && m < len - d && rows[e][d + m] != rows[tid][d + m]
        && forall i | d <= i < d + m :: At(e, i) == At(tid, i)
    {
      LeafDiffers(e, tid, d);
      var m := Matching(rows[e][d..], rows[tid], d);
      assert rows[e][d..][m] == rows[e][d + m];
      forall i | d <= i < d + m
        ensures At(e, i) == At(tid, i)
      {
        assert rows[e][d..][i - d] == rows[e][i];
        assert rows[tid][i] == At(tid, i);
      }
    }

    lemma TwoLeavesFit(e: nat, tid: nat, d: nat, m: nat, t: Trie)
      requires Valid() && e < |rows| && tid < |rows| && e != tid && d + m < len
      requires forall i | d <= i < d + m :: At(e, i) == At(tid, i)
      requires rows[e][d + m] != rows[tid][d + m]
      requires t == Branch(rows[tid][d..d + m], map[rows[e][d + m] := Leaf(e), rows[tid][d + m] := Leaf(tid)])
      ensures Represents(t, d, {e} + {tid})
    {
      var p := rows[tid][d..d + m];
      forall i | d <= i < d + m
        ensures At(tid, i) == p[i - d]
      {
        assert rows[tid][i] == p[i - d];
      }
      PairFits(p, d, {e}, rows[e][d + m], Leaf(e), rows[tid][d + m], tid);
    }

    lemma SplitPrefixFits(t: Trie, d: nat, s: set<nat>, tid: nat, m: nat)
      requires Valid() && tid < |rows| && tid !in s && Represents(t, d, s) && t.Branch? && m < |t.prefix|
      requires forall i {:trigger rows[tid][i]} | d <= i < d + m :: t.prefix[i - d] == rows[tid][i]
      requires t.prefix[m] != rows[tid][d + m]
      ensures Represents(Branch(t.prefix[..m],
                                map[t.prefix[m] := t.(prefix := t.prefix[m + 1..]), rows[tid][d + m] := Leaf(tid)]),
                         d, s + {tid})
    {
      var p := t.prefix;
      LowerPartFits(t, d, s, m);
      SharedUpto(s, tid, p, m, d);
      PairFits(p[..m], d, s, p[m], t.(prefix := p[m + 1..]), rows[tid][d + m], tid);
    }

    /** A branch with the first m + 1 bytes of its prefix taken off sits m + 1 deeper. */
    lemma LowerPartFits(t: Trie, d: nat, s: set<nat>, m: nat)
      requires Represents(t, d, s) && t.Branch? && m < |t.prefix|
      ensures Represents(t.(prefix := t.prefix[m + 1..]), d + m + 1, s)
      ensures Shared(s, t.prefix[..m], d)
      ensures forall u | u in s :: At(u, d + m) == t.prefix[m]
    {
      var p := t.prefix;
      assert d + m + 1 + |p[m + 1..]| == d + |p|;
      assert forall u | u in s :: At(u, d + m) == p[d + m - d];
    }

    /** A node with two children: what was there before, and the new leaf. */
    lemma PairFits(p: Key, d: nat, s: set<nat>, b: byte, low: Trie, c: byte, tid: nat)
      requires tid < |rows| && tid !in s && b != c && d + |p| < len
      requires Shared(s + {tid}, p, d)
      requires (forall u | u in s :: At(u, d + |p|) == b) && At(tid, d + |p|) == c
      requires low != Nil && Represents(low, d + |p| + 1, s)
      ensures Represents(Branch(p, map[b := low, c := Leaf(tid)]), d, s + {tid})
    {
      var kids, pos := map[b := low, c := Leaf(tid)], d + |p|;
      assert kids.Keys == {b, c};
      assert Below(s + {tid}, pos, b) == s && Below(s + {tid}, pos, c) == {tid};
      assert KidFits(kids, b, pos, s + {tid}) && KidFits(kids, c, pos, s + {tid});
    }

    /** The tuples below a child have, with a key that passes the prefix and takes that child, one more byte alike. */
    lemma AgreeBelow(s: set<nat>, key: Key, d: nat, p: Key)
      requires Agree(s, key, d) && Shared(s, p, d) && d + |p| < len
      requires Matching(p, key, d) == |p|
      ensures Agree(Below(s, d + |p|, key[d + |p|]), key, d + |p| + 1)
    {
      forall u: nat, i: nat | u in Below(s, d + |p|, key[d + |p|]) && i < d + |p| + 1
        ensures At(u, i) == key[i]
      {
      }
    }

    /** Changing what is below child `b` only: the other children do not see it. */
    lemma ReplaceKidFits(t: Trie, d: nat, s: set<nat>, tid: nat, kid: Trie)
      requires Valid() && tid < |rows| && Represents(t, d, s) && Agree(s, rows[tid], d)
      requires t.Branch? && Matching(t.prefix, rows[tid], d) == |t.prefix|
      requires rows[tid][d + |t.prefix|] in t.kids && kid != Nil
      requires Represents(kid, d + |t.prefix| + 1, Below(s, d + |t.prefix|, rows[tid][d + |t.prefix|]) + {tid})
      ensures Represents(t.(kids := t.kids[rows[tid][d + |t.prefix|] := kid]), d, s + {tid})
    {
      var p, pos := t.prefix, d + |t.prefix|;
      var b := rows[tid][pos];
      var kids := t.kids[b := kid];
      assert kids.Keys == t.kids.Keys;
      SharedByNew(s, tid, p, d);
      forall c | c in kids
        ensures KidFits(kids, c, pos, s + {tid})
      {
        assert KidFits(t.kids, c, pos, s);
        assert Below(s + {tid}, pos, c) == if c == b then Below(s, pos, b) + {tid} else Below(s, pos, c);
      }
    }

    lemma AddKidFits(t: Trie, d: nat, s: set<nat>, tid: nat)
      requires Valid() && tid < |rows| && Represents(t, d, s) && Agree(s, rows[tid], d)
      requires t.Branch? && Matching(t.prefix, rows[tid], d) == |t.prefix|
      requires rows[tid][d + |t.prefix|] !in t.kids
      ensures Represents(t.(kids := t.kids[rows[tid][d + |t.prefix|] := Leaf(tid)]), d, s + {tid})
    {
      var p, pos := t.prefix, d + |t.prefix|;
      var b := rows[tid][pos];
      var kids := t.kids[b := Leaf(tid)];
      SharedByNew(s, tid, p, d);
      assert kids.Keys == t.kids.Keys + {b};
      forall c | c in kids
        ensures KidFits(kids, c, pos, s + {tid})
      {
        if c == b {
          assert Below(s + {tid}, pos, b) == {tid};
        } else {
          assert KidFits(t.kids, c, pos, s);
          assert Below(s + {tid}, pos, c) == Below(s, pos, c);
        }
      }
    }

    lemma SharedUpto(s: set<nat>, tid: nat, p: Key, m: nat, d: nat)
      requires Valid() && tid < |rows| && d + |p| < len && m <= |p|
      requires forall i {:trigger rows[tid][i]} | d <= i < d + m :: p[i - d] == rows[tid][i]
      requires Shared(s, p[..m], d)
      ensures Shared(s + {tid}, p[..m], d)
    {
      SharedByNew(s, tid, p[..m], d);
    }

    lemma SharedByNew(s: set<nat>, tid: nat, p: Key, d: nat)
      requires Valid() && tid < |rows| && Shared(s, p, d) && d + |p| < len
      requires forall i {:trigger rows[tid][i]} | d <= i < d + |p| :: p[i - d] == rows[tid][i]
      ensures Shared(s + {tid}, p, d)
    {
    }

    // ---------------------------------------------------------------- erasure

    /** The search path of `key` stays within the key, the leaf at its end belongs there, and on the way a prefix fits
        in front of that of a child that would replace its parent. */
    ghost predicate Fits(t: Trie, d: nat, key: Key)
      requires Valid() && |key| == len
      decreases t
    {
      match t
      case Nil => true
      case Leaf(tid) => tid < |rows| && d <= len
      case Branch(p, kids) =>
        && d + |p| < len && |kids| >= 2
        && (forall c | c in kids :: Joinable(kids[c], d + |p| + 1))
        && (Matching(p, key, d) == |p| && key[d + |p|] in kids ==>
              Belongs(kids[key[d + |p|]], d + |p|, key) && Fits(kids[key[d + |p|]], d + |p| + 1, key))
    }

    /** A leaf below byte `pos` of a key has that byte. */
    ghost predicate Belongs(kid: Trie, pos: nat, key: Key)
      requires pos < |key|
    {
      kid.Leaf? ==> At(kid.tid, pos) == key[pos]
    }

    ghost predicate Joinable(kid: Trie, d: nat) {
      kid != Nil && (kid.Branch? ==> d + |kid.prefix| < len)
    }

    /** The trie with the tuple of key `key` taken out, if it is there. */
    ghost function Erase(t: Trie, d: nat, key: Key): Trie
      requires Valid() && |key| == len && Fits(t, d, key)
      decreases t
    {
      match t
      case Nil => Nil
      case Leaf(tid) => if rows[tid][d..] == key[d..] then Nil else t
      case Branch(p, kids) =>
        if Matching(p, key, d) < |p| || key[d + |p|] !in kids then t
        else
          var b := key[d + |p|];
          var kid := Erase(kids[b], d + |p| + 1, key);
          if kid != Nil then t.(kids := kids[b := kid]) else DropKid(t, b)
    }

    /** Erasing in a branch whose prefix and next byte the key has: its leaf there goes ... */
    lemma EraseHere(t: Trie, d: nat, key: Key, pos: nat, kid: Trie)
      requires Valid() && |key| == len && Fits(t, d, key) && t.Branch? && pos == d + |t.prefix|
      requires Matching(t.prefix, key, d) == |t.prefix| && key[pos] in t.kids && kid == t.kids[key[pos]]
      requires kid.Leaf? && kid.tid < |rows| && rows[kid.tid][pos + 1..] == key[pos + 1..]
      ensures Erase(t, d, key) == DropKid(t, key[pos])
    {
    }

    /** ... or the erasure goes on below. */
    lemma EraseBelow(t: Trie, d: nat, key: Key, pos: nat, kid: Trie)
      requires Valid() && |key| == len && Fits(t, d, key) && t.Branch? && pos == d + |t.prefix|
      requires Matching(t.prefix, key, d) == |t.prefix| && key[pos] in t.kids && kid == t.kids[key[pos]]
      requires kid.Leaf? ==> kid.tid < |rows| && rows[kid.tid][pos + 1..] != key[pos + 1..]
      ensures Fits(kid, pos + 1, key) && Erase(kid, pos + 1, key) != Nil
      ensures Erase(t, d, key) == t.(kids := t.kids[key[pos] := Erase(kid, pos + 1, key)])
    {
      KidFollows(t, d, key, pos, kid);
      LeafStays(kid, pos + 1, key);
      EraseStep(t, d, key);
    }

    lemma KidFollows(t: Trie, d: nat, key: Key, pos: nat, kid: Trie)
      requires Valid() && |key| == len && Fits(t, d, key) && t.Branch? && pos == d + |t.prefix|
      requires Matching(t.prefix, key, d) == |t.prefix| && key[pos] in t.kids && kid == t.kids[key[pos]]
      ensures kid != Nil && Fits(kid, pos + 1, key) && Belongs(kid, pos, key)
    {
    }

    lemma LeafStays(kid: Trie, d: nat, key: Key)
      requires Valid() && |key| == len && Fits(kid, d, key) && kid != Nil
      requires kid.Leaf? ==> kid.tid < |rows| && rows[kid.tid][d..] != key[d..]
      ensures Erase(kid, d, key) != Nil
    {
    }

    /** Erasing: the trie of the tuples `s` becomes the trie of `s` without the tuple of that key. */
    lemma {:induction false} EraseRepresents(t: Trie, d: nat, s: set<nat>, key: Key)
      requires Valid() && Represents(t, d, s) && Agree(s, key, d)
      ensures Fits(t, d, key) && Represents(Erase(t, d, key), d, Without(s, key))
      decreases t
    {
      match t
      case Nil =>
      case Leaf(tid) =>
        LeafMatches(tid, key, d);
        assert rows[tid] != key ==> Without(s, key) == s;
      case Branch(p, kids) =>
        JoinsFit(t, d, s);
        if Matching(p, key, d) < |p| || key[d + |p|] !in kids {
          NothingToErase(t, d, s, key);
        } else {
          EraseInChild(t, d, s, key);
        }
    }

    /** For a key with the same first `d` bytes, comparing the rest is comparing the keys. */
    lemma LeafMatches(tid: nat, key: Key, d: nat)
      requires Valid() && tid < |rows| && Agree({tid}, key, d)
      ensures rows[tid][d..] == key[d..] <==> rows[tid] == key
    {
      if rows[tid][d..] == key[d..] {
        forall i | 0 <= i < len
          ensures rows[tid][i] == key[i]
        {
          if i < d {
            assert At(tid, i) == key[i];
          } else {
            assert rows[tid][d..][i - d] == key[d..][i - d];
          }
        }
      }
    }

    lemma JoinsFit(t: Trie, d: nat, s: set<nat>)
      requires Represents(t, d, s) && t.Branch?
      ensures forall c | c in t.kids :: Joinable(t.kids[c], d + |t.prefix| + 1)
    {
      forall c | c in t.kids
        ensures Joinable(t.kids[c], d + |t.prefix| + 1)
      {
        assert KidFits(t.kids, c, d + |t.prefix|, s);
        assert Represents(t.kids[c], d + |t.prefix| + 1, Below(s, d + |t.prefix|, c));
      }
    }

    lemma {:induction false} EraseInChild(t: Trie, d: nat, s: set<nat>, key: Key)
      requires Valid() && Represents(t, d, s) && Agree(s, key, d) && t.Branch?
      requires forall c | c in t.kids :: Joinable(t.kids[c], d + |t.prefix| + 1)
      requires Matching(t.prefix, key, d) == |t.prefix| && key[d + |t.prefix|] in t.kids
      ensures Fits(t, d, key) && Represents(Erase(t, d, key), d, Without(s, key))
      decreases t, 0
    {
      var b := key[d + |t.prefix|];
      assert KidFits(t.kids, b, d + |t.prefix|, s);
      AgreeBelow(s, key, d, t.prefix);
      EraseRepresents(t.kids[b], d + |t.prefix| + 1, Below(s, d + |t.prefix|, b), key);
      var kid := Erase(t.kids[b], d + |t.prefix| + 1, key);
      LeafBelongs(t.kids, b, d + |t.prefix|, s);
      EraseStep(t, d, key);
      if kid != Nil {
        EraseBelowFits(t, d, s, key, kid);
      } else if |t.kids| > 2 {
        DropKidFits(t, d, s, key);
      } else {
        CollapseFits(t, d, s, key, OtherKey(t.kids, b));
      }
    }

    lemma LeafBelongs(kids: map<byte, Trie>, b: byte, pos: nat, s: set<nat>)
      requires b in kids && KidFits(kids, b, pos, s)
      ensures kids[b].Leaf? ==> At(kids[b].tid, pos) == b
    {
      if kids[b].Leaf? {
        assert kids[b].tid in Below(s, pos, b);
      }
    }

    /** The step of Erase that descends. */
    lemma EraseStep(t: Trie, d: nat, key: Key)
      requires Valid() && |key| == len && t.Branch? && d + |t.prefix| < len && |t.kids| >= 2
      requires forall c | c in t.kids :: Joinable(t.kids[c], d + |t.prefix| + 1)
      requires Matching(t.prefix, key, d) == |t.prefix| && key[d + |t.prefix|] in t.kids
      requires Fits(t.kids[key[d + |t.prefix|]], d + |t.prefix| + 1, key)
      requires Belongs(t.kids[key[d + |t.prefix|]], d + |t.prefix|, key)
      ensures Fits(t, d, key)
      ensures var b := key[d + |t.prefix|];
              var kid := Erase(t.kids[b], d + |t.prefix| + 1, key);
              Erase(t, d, key) == if kid != Nil then t.(kids := t.kids[b := kid]) else DropKid(t, b)
    {
    }

    lemma NothingToErase(t: Trie, d: nat, s: set<nat>, key: Key)
      requires Valid() && Represents(t, d, s) && Agree(s, key, d) && t.Branch?
      requires Matching(t.prefix, key, d) < |t.prefix| || key[d + |t.prefix|] !in t.kids
      ensures Without(s, key) == s
    {
      var m := Matching(t.prefix, key, d);
      forall u | u in s
        ensures rows[u] != key
      {
        if m < |t.prefix| {
          assert At(u, d + m) == t.prefix[d + m - d];
        } else {
          assert At(u, d + |t.prefix|) in t.kids;
        }
      }
    }

    /** Erasing a key touches only the tuples below its own child. */
    lemma WithoutBelow(s: set<nat>, key: Key, pos: nat, c: byte)
      requires Valid() && pos < len == |key| && forall u | u in s :: u < |rows|
      ensures Below(Without(s, key), pos, c) ==
              if c == key[pos] then Without(Below(s, pos, c), key) else Below(s, pos, c)
    {
    }

    lemma EraseBelowFits(t: Trie, d: nat, s: set<nat>, key: Key, kid: Trie)
      requires Valid() && Represents(t, d, s) && Agree(s, key, d)
      requires t.Branch? && key[d + |t.prefix|] in t.kids && kid != Nil
      requires Represents(kid, d + |t.prefix| + 1, Without(Below(s, d + |t.prefix|, key[d + |t.prefix|]), key))
      ensures Represents(t.(kids := t.kids[key[d + |t.prefix|] := kid]), d, Without(s, key))
    {
      var pos := d + |t.prefix|;
      var kids := t.kids[key[pos] := kid];
      assert kids.Keys == t.kids.Keys;
      forall c | c in kids
        ensures KidFits(kids, c, pos, Without(s, key))
      {
        assert KidFits(t.kids, c, pos, s);
        WithoutBelow(s, key, pos, c);
      }
    }

    /** The child's only tuple was the erased one, so the child goes. */
    lemma DropKidFits(t: Trie, d: nat, s: set<nat>, key: Key)
      requires Valid() && Represents(t, d, s) && Agree(s, key, d)
      requires t.Branch? && key[d + |t.prefix|] in t.kids && |t.kids| > 2
      requires Without(Below(s, d + |t.prefix|, key[d + |t.prefix|]), key) == {}
      ensures Represents(t.(kids := t.kids - {key[d + |t.prefix|]}), d, Without(s, key))
    {
      var pos := d + |t.prefix|;
      var kids := t.kids - {key[pos]};
      DropOne(t.kids, key[pos]);
      WithoutBelow(s, key, pos, key[pos]);
      forall u | u in Without(s, key)
        ensures At(u, pos) in kids
      {
        assert u in Below(Without(s, key), pos, At(u, pos));
      }
      forall c | c in kids
        ensures KidFits(kids, c, pos, Without(s, key))
      {
        assert KidFits(t.kids, c, pos, s);
        WithoutBelow(s, key, pos, c);
      }
    }

    /** Only child `c` is left: prefix concatenation keeps the trie path-compressed. */
    lemma CollapseFits(t: Trie, d: nat, s: set<nat>, key: Key, c: byte)
      requires Valid() && Represents(t, d, s) && Agree(s, key, d)
      requires t.Branch? && key[d + |t.prefix|] in t.kids && c in t.kids && c != key[d + |t.prefix|]
      requires forall e | e in t.kids :: e == c || e == key[d + |t.prefix|]
      requires Without(Below(s, d + |t.prefix|, key[d + |t.prefix|]), key) == {}
      ensures Represents(Join(t.prefix, c, t.kids[c]), d, Without(s, key))
    {
      var pos, left := d + |t.prefix|, Without(s, key);
      assert KidFits(t.kids, c, pos, s);
      WithoutBelow(s, key, pos, c);
      WithoutBelow(s, key, pos, key[pos]);
      forall u | u in left
        ensures At(u, pos) == c
      {
        assert u in Below(left, pos, At(u, pos));
      }
      assert Below(left, pos, c) == left;
      assert Represents(t.kids[c], pos + 1, left);
      if t.kids[c].Branch? {
        JoinFits(t.prefix, c, t.kids[c], d, left);
      }
    }

    lemma JoinFits(p: Key, c: byte, kid: Trie, d: nat, s: set<nat>)
      requires Represents(kid, d + |p| + 1, s) && kid.Branch?
      requires Shared(s, p, d) && forall u | u in s :: At(u, d + |p|) == c
      ensures Represents(Join(p, c, kid), d, s)
    {
      var q := p + [c] + kid.prefix;
      assert d + |q| == d + |p| + 1 + |kid.prefix|;
      forall u: nat, i: nat | u in s && d <= i < d + |q|
        ensures At(u, i) == q[i - d]
      {
        if i > d + |p| {
          assert At(u, i) == kid.prefix[i - (d + |p| + 1)];
        }
      }
    }

    // ---------------------------------------------------------------- search

    /** The leaf with key `key`, or Nil. */
    ghost function Find(t: Trie, d: nat, key: Key): (r: Trie)
      requires Valid() && |key| == len && Fits(t, d, key)
      decreases t
    {
      match t
      case Nil => Nil
      case Leaf(tid) => if rows[tid][d..] == key[d..] then t else Nil
      case Branch(p, kids) =>
        if Matching(p, key, d) == |p| && key[d + |p|] in kids then Find(kids[key[d + |p|]], d + |p| + 1, key) else Nil
    }

    /** Searching finds the tuple with the key, exactly when there is one. */
    lemma {:induction false} FindCorrect(t: Trie, d: nat, s: set<nat>, key: Key)
      requires Valid() && Represents(t, d, s) && Agree(s, key, d)
      ensures Fits(t, d, key)
      ensures Find(t, d, key) == Nil ==> forall u | u in s :: rows[u] != key
      ensures Find(t, d, key) != Nil ==> exists u | u in s :: rows[u] == key && Find(t, d, key) == Leaf(u)
      decreases t
    {
      EraseRepresents(t, d, s, key);
      match t
      case Nil =>
      case Leaf(tid) => LeafMatches(tid, key, d);
      case Branch(p, kids) =>
        if Matching(p, key, d) == |p| && key[d + |p|] in kids {
          FindInChild(t, d, s, key);
        } else {
          NothingToErase(t, d, s, key);
          assert forall u | u in s :: u in Without(s, key);
        }
    }

    lemma {:induction false} FindInChild(t: Trie, d: nat, s: set<nat>, key: Key)
      requires Valid() && Represents(t, d, s) && Agree(s, key, d) && Fits(t, d, key) && t.Branch?
      requires Matching(t.prefix, key, d) == |t.prefix| && key[d + |t.prefix|] in t.kids
      ensures Find(t, d, key) == Nil ==> forall u | u in s :: rows[u] != key
      ensures Find(t, d, key) != Nil ==> exists u | u in s :: rows[u] == key && Find(t, d, key) == Leaf(u)
      decreases t, 0
    {
      var pos := d + |t.prefix|;
      var b := key[pos];
      assert KidFits(t.kids, b, pos, s);
      AgreeBelow(s, key, d, t.prefix);
      FindCorrect(t.kids[b], pos + 1, Below(s, pos, b), key);
      assert forall u | u in s && rows[u] == key :: u in Below(s, pos, b);
    }

    /** The tuple of the leftmost leaf. */
    ghost function Leftmost(t: Trie): nat
      requires NoEmptyBranch(t)
      decreases t
    {
      if t.Leaf? then t.tid else Leftmost(t.kids[Least(t.kids, 0)])
    }

    /** The tuple of the rightmost leaf. */
    ghost function Rightmost(t: Trie): nat
      requires NoEmptyBranch(t)
      decreases t
    {
      if t.Leaf? then t.tid else Rightmost(t.kids[Greatest(t.kids, 255)])
    }

    lemma LeftmostBelow(t: Trie, b: byte)
      requires NoEmptyBranch(t) && t.Branch? && b in t.kids && forall c | c in t.kids :: b <= c
      ensures NoEmptyBranch(t.kids[b]) && Leftmost(t.kids[b]) == Leftmost(t)
    {
      assert Least(t.kids, 0) == b;
    }

    lemma RightmostBelow(t: Trie, b: byte)
      requires NoEmptyBranch(t) && t.Branch? && b in t.kids && forall c | c in t.kids :: c <= b
      ensures NoEmptyBranch(t.kids[b]) && Rightmost(t.kids[b]) == Rightmost(t)
    {
      assert Greatest(t.kids, 255) == b;
    }

    ghost predicate NoEmptyBranch(t: Trie)
      decreases t
    {
      t != Nil && (t.Branch? ==> |t.kids| > 0 && forall b | b in t.kids :: NoEmptyBranch(t.kids[b]))
    }

    /** The tuples of `s` exist and have their first `d` bytes in common. */
    ghost predicate Alike(s: set<nat>, d: nat) {
      (forall u | u in s :: u < |rows|) &&
      (forall u: nat, v: nat, i: nat {:trigger At(u, i), At(v, i)} | u in s && v in s && i < d :: At(u, i) == At(v, i))
    }

    lemma AlikeBelow(s: set<nat>, d: nat, p: Key, b: byte)
      requires Alike(s, d) && Shared(s, p, d)
      ensures Alike(Below(s, d + |p|, b), d + |p| + 1)
    {
    }

    lemma DifferAfterPrefix(s: set<nat>, d: nat, p: Key, u: nat, v: nat)
      requires Valid() && Alike(s, d) && Shared(s, p, d) && d + |p| < len
      requires u in s && v in s && At(u, d + |p|) != At(v, d + |p|)
      ensures DiffersFirstAt(rows[u], rows[v], d + |p|)
      ensures rows[u][d + |p|] == At(u, d + |p|) && rows[v][d + |p|] == At(v, d + |p|)
    {
      forall i | 0 <= i < d + |p|
        ensures rows[u][i] == rows[v][i]
      {
        assert At(u, i) == At(v, i);
      }
    }

    lemma {:induction false} HasLeaves(t: Trie, d: nat, s: set<nat>)
      requires Represents(t, d, s) && t != Nil
      ensures NoEmptyBranch(t)
      decreases t
    {
      if t.Branch? {
        forall b | b in t.kids
          ensures NoEmptyBranch(t.kids[b])
        {
          assert KidFits(t.kids, b, d + |t.prefix|, s);
          HasLeaves(t.kids[b], d + |t.prefix| + 1, Below(s, d + |t.prefix|, b));
        }
      }
    }

    /** The leftmost leaf is the tuple with the least key, in byte order and so in numeric order. */
    lemma {:induction false} LeftmostIsLeast(t: Trie, d: nat, s: set<nat>)
      requires Valid() && Represents(t, d, s) && Alike(s, d) && NoEmptyBranch(t)
      ensures Leftmost(t) in s
      ensures forall u | u in s && u != Leftmost(t) :: Less(rows[Leftmost(t)], rows[u])
      decreases t
    {
      if t.Branch? {
        var pos, b := d + |t.prefix|, Least(t.kids, 0);
        assert KidFits(t.kids, b, pos, s);
        AlikeBelow(s, d, t.prefix, b);
        LeftmostIsLeast(t.kids[b], pos + 1, Below(s, pos, b));
        forall u | u in s && u != Leftmost(t)
          ensures Less(rows[Leftmost(t)], rows[u])
        {
          if At(u, pos) == b {
            assert u in Below(s, pos, b);
          } else {
            DifferAfterPrefix(s, d, t.prefix, Leftmost(t), u);
            assert rows[Leftmost(t)][pos] == b < rows[u][pos];
          }
        }
      }
    }

    /** The rightmost leaf is the tuple with the greatest key, in byte order and so in numeric order. */
    lemma {:induction false} RightmostIsGreatest(t: Trie, d: nat, s: set<nat>)
      requires Valid() && Represents(t, d, s) && Alike(s, d) && NoEmptyBranch(t)
      ensures Rightmost(t) in s
      ensures forall u | u in s && u != Rightmost(t) :: Less(rows[u], rows[Rightmost(t)])
      decreases t
    {
      if t.Branch? {
        var pos, b := d + |t.prefix|, Greatest(t.kids, 255);
        assert KidFits(t.kids, b, pos, s);
        AlikeBelow(s, d, t.prefix, b);
        RightmostIsGreatest(t.kids[b], pos + 1, Below(s, pos, b));
        forall u | u in s && u != Rightmost(t)
          ensures Less(rows[u], rows[Rightmost(t)])
        {
          if At(u, pos) == b {
            assert u in Below(s, pos, b);
          } else {
            DifferAfterPrefix(s, d, t.prefix, Rightmost(t), u);
            DifferAfterPrefix(s, d, t.prefix, u, Rightmost(t));
            assert rows[u][pos] < b == rows[Rightmost(t)][pos];
          }
        }
      }
    }

    // ---------------------------------------------------------------- whole runs

    /** Erasing a tuple just inserted gives back the trie from before. */
    lemma EraseUndoesInsert(t: Trie, d: nat, s: set<nat>, tid: nat, r: Trie)
      requires Valid() && tid < |rows| && tid !in s
      requires Represents(t, d, s) && Agree(s, rows[tid], d)
      requires CanInsert(t, d, tid) && r == Insert(t, d, tid)
      ensures Fits(r, d, rows[tid]) && Erase(r, d, rows[tid]) == t
    {
      InsertRepresents(t, d, s, tid);
      AgreeAdded(s, tid, d);
      EraseRepresents(r, d, s + {tid}, rows[tid]);
      WithoutAdded(s, tid);
      Canonical(Erase(r, d, rows[tid]), t, d, s);
    }

    lemma WithoutAdded(s: set<nat>, tid: nat)
      requires Valid() && tid < |rows| && tid !in s && forall u | u in s :: u < |rows|
      ensures Without(s + {tid}, rows[tid]) == s
    {
      assert forall u | u in s :: Differ(u, tid);
    }

    lemma AgreeAdded(s: set<nat>, tid: nat, d: nat)
      requires Valid() && tid < |rows| && Agree(s, rows[tid], d)
      ensures Agree(s + {tid}, rows[tid], d)
    {
    }

    /** Insertions of absent tuples and erasures of any keys, starting from the tuples `s`. */
    ghost predicate Legal(ops: seq<Op>, s: set<nat>)
      decreases |ops|
    {
      (forall t | t in s :: t < |rows|) &&
      (ops == [] ||
        match ops[0]
        case Add(tid) => tid < |rows| && tid !in s && Legal(ops[1..], s + {tid})
        case Remove(key) => |key| == len && Legal(ops[1..], Without(s, key)))
    }

    /** The tuples left after `ops`. */
    ghost function Survivors(ops: seq<Op>, s: set<nat>): set<nat>
      decreases |ops|
    {
      if ops == [] then s
      else match ops[0]
        case Add(tid) => Survivors(ops[1..], s + {tid})
        case Remove(key) => Survivors(ops[1..], Without(s, key))
    }

    /** The trie after `ops`: it represents the tuples left. */
    ghost function Run(t: Trie, s: set<nat>, ops: seq<Op>): (r: Trie)
      requires Valid() && Represents(t, 0, s) && Legal(ops, s)
      ensures Represents(r, 0, Survivors(ops, s))
      decreases |ops|
    {
      if ops == [] then t
      else match ops[0]
        case Add(tid) =>
          InsertRepresents(t, 0, s, tid);
          Run(Insert(t, 0, tid), s + {tid}, ops[1..])
        case Remove(key) =>
          EraseRepresents(t, 0, s, key);
          Run(Erase(t, 0, key), Without(s, key), ops[1..])
    }

    /** Two runs that leave the same tuples leave the same trie, whatever their order and detours. */
    lemma RunsConverge(ops: seq<Op>, others: seq<Op>)
      requires Valid() && Legal(ops, {}) && Legal(others, {})
      requires Survivors(ops, {}) == Survivors(others, {})
      ensures Run(Nil, {}, ops) == Run(Nil, {}, others)
    {
      Canonical(Run(Nil, {}, ops), Run(Nil, {}, others), 0, Survivors(ops, {}));
    }
  }

  datatype Op = Add(tid: nat) | Remove(key: Key)

  lemma TwoKeys<V>(m: map<byte, V>) returns (b: byte, c: byte)
    requires |m| >= 2
    ensures b in m && c in m && b != c
  {
    b :| b in m;
    assert |m.Keys - {b}| >= 1;
    c :| c in m.Keys - {b};
  }

  /** A child takes the place of its one-way parent: the parent's prefix and the byte that led to the child go in
      front of the child's prefix. */
  ghost function Join(p: Key, c: byte, kid: Trie): Trie {
    if kid.Branch? then Branch(p + [c] + kid.prefix, kid.kids) else kid
  }

  /** Child `b` goes; an only child left takes the place of the node. */
  ghost function DropKid(t: Trie, b: byte): Trie
    requires t.Branch? && |t.kids| >= 2 && b in t.kids
  {
    if |t.kids| > 2 then t.(kids := t.kids - {b})
    else var c := OtherKey(t.kids, b); Join(t.prefix, c, t.kids[c])
  }

  lemma DropOne<V>(m: map<byte, V>, b: byte)
    requires b in m
    ensures |m - {b}| == |m| - 1 && (m - {b}).Keys == m.Keys - {b}
  {
    assert (m - {b}).Keys == m.Keys - {b};
    assert |(m - {b}).Keys| == |m.Keys| - 1;
  }

  /** The key of a two-entry map other than `b`. */
  ghost function OtherKey<V>(m: map<byte, V>, b: byte): (c: byte)
    requires |m| == 2 && b in m
    ensures c in m && c != b && forall e | e in m :: e == b || e == c
  {
    assert |m.Keys - {b}| == 1;
    var c :| c in m.Keys - {b};
    assert |m.Keys - {b} - {c}| == 0;
    assert forall e | e in m :: e !in m.Keys - {b} - {c};
    c
  }

  /** The least key not below `i`. */
  ghost function Least<V>(m: map<byte, V>, i: byte): (b: byte)
    requires exists c :: c in m && i <= c
    ensures b in m && i <= b && forall c | c in m && i <= c :: b <= c
    decreases 256 - i
  {
    if i in m then i else Least(m, i + 1)
  }

  /** The greatest key not above `i`. */
  ghost function Greatest<V>(m: map<byte, V>, i: byte): (b: byte)
    requires exists c :: c in m && c <= i
    ensures b in m && b <= i && forall c | c in m && c <= i :: c <= b
    decreases i
  {
    if i in m then i else Greatest(m, i - 1)
  }
}
