/** The radix tree on the heap: search, insertion and erasure by key byte, proved against the trie. */
module ArtTree {
  import opened Bytes
  import opened ArtTrie
  import opened ArtLayout
  import opened ArtNode
  import opened Gates

  /** The trie below a pointer. */
  ghost function TrieOf(r: Ref): Trie
    reads if r.Inner? then {r.node} else {}
  {
    match r
    case Null => Nil
    case Pseudo(tid) => Leaf(tid)
    case Inner(n) => n.trie
  }

  /** The nodes below a pointer. */
  ghost function ReprOf(r: Ref): set<Node>
    reads if r.Inner? then {r.node} else {}
  {
    if r.Inner? then r.node.Repr else {}
  }

  /** A node of a tree: its layout and occupancy are right, its prefix is shorter than MAX_PREFIX (part of the
      layout), and its children are the roots of disjoint trees of which it is not part. */
  ghost predicate Valid(n: Node)
    reads n, n.Repr
    decreases n.Repr, 0
  {
    && n in n.Repr && n.trie.Branch?
    && forall u {:trigger Entered(u)} | Entered(u) ::
         && n.Stored() && Occupied(n.kind, n.count) && n.trie.prefix == n.Path()
         && Forest(n.kids, n.trie.kids, n.Repr - {n})
  }

  ghost predicate ValidRef(r: Ref)
    reads if r.Inner? then {r.node} + r.node.Repr else {}
  {
    r.Inner? ==> Valid(r.node)
  }

  /** `kids` are the roots of disjoint trees within `region`, with tries `tries`. */
  ghost predicate Forest(kids: map<byte, Ref>, tries: map<byte, Trie>, region: set<Node>)
    reads region
    decreases region, 1
  {
    && kids.Keys == tries.Keys
    && forall u {:trigger Opened(u)} | Opened(u) ::
         && (forall b {:trigger Kid(kids, b)} | Kid(kids, b) && kids[b].Inner? :: kids[b].node in region)
         && (forall b {:trigger Kid(kids, b)} | Kid(kids, b) ::
               tries[b] == TrieOf(kids[b]) &&
               (kids[b].Inner? ==> kids[b].node.Repr <= region && Valid(kids[b].node)))
         && (forall b, c {:trigger Kid(kids, b), Kid(kids, c)} | Kid(kids, b) && Kid(kids, c) && b != c ::
               ReprOf(kids[b]) !! ReprOf(kids[c]))
  }

  ghost predicate Kid(kids: map<byte, Ref>, b: byte) {
    b in kids
  }

  /** What a valid node and its trie have in common. */
  lemma Inside(n: Node)
    requires Valid(n)
    ensures n.Stored() && Occupied(n.kind, n.count)
    ensures n.trie.Branch? && n.trie.prefix == n.Path() && |n.trie.prefix| == n.prefixLength
    ensures n.trie.kids.Keys == n.kids.Keys && |n.trie.kids| == n.count
    ensures Forest(n.kids, n.trie.kids, n.Repr - {n})
  {
    assert Entered(0);
    var tries := n.trie.kids;
    assert Forest(n.kids, tries, n.Repr - {n});
    assert n.kids.Keys == tries.Keys;
    assert |n.kids.Keys| == |n.kids| && |tries.Keys| == |tries|;
  }

  lemma ForestAddLeaf(kids: map<byte, Ref>, tries: map<byte, Trie>, region: set<Node>, b: byte, tid: nat)
    requires Forest(kids, tries, region)
    ensures Forest(kids[b := Pseudo(tid)], tries[b := Leaf(tid)], region)
  {
    assert Opened(0);
    var kids', tries' := kids[b := Pseudo(tid)], tries[b := Leaf(tid)];
    assert forall c | Kid(kids', c) && c != b :: Kid(kids, c) && kids'[c] == kids[c] && tries'[c] == tries[c];
    assert kids'.Keys == tries'.Keys;
    assert ReprOf(kids'[b]) == {};
  }

  lemma ForestRemove(kids: map<byte, Ref>, tries: map<byte, Trie>, region: set<Node>, b: byte)
    requires Forest(kids, tries, region) && b in kids
    ensures Forest(kids - {b}, tries - {b}, region)
  {
    assert Opened(0);
    assert forall c | Kid(kids - {b}, c) :: Kid(kids, c) && c != b;
  }

  /** Setting one tree of a forest aside: the rest lies in what is left of the region. */
  lemma ForestSplit(kids: map<byte, Ref>, tries: map<byte, Trie>, region: set<Node>, b: byte)
    requires Forest(kids, tries, region) && b in kids
    ensures ValidRef(kids[b]) && ReprOf(kids[b]) <= region && TrieOf(kids[b]) == tries[b]
    ensures Forest(kids - {b}, tries - {b}, region - ReprOf(kids[b]))
  {
    assert Opened(0);
    assert Kid(kids, b);
    assert forall c | Kid(kids - {b}, c) :: Kid(kids, c) && c != b;
  }

  /** Putting a tree in the place that was set aside. */
  lemma ForestJoin(kids: map<byte, Ref>, tries: map<byte, Trie>, region: set<Node>, b: byte, r: Ref)
    requires Forest(kids - {b}, tries - {b}, region) && ValidRef(r) && ReprOf(r) !! region
    ensures Forest(kids[b := r], tries[b := TrieOf(r)], region + ReprOf(r))
  {
    assert Opened(0);
    var rest, rt, kids', tries' := kids - {b}, tries - {b}, kids[b := r], tries[b := TrieOf(r)];
    assert kids'.Keys == rest.Keys + {b} && tries'.Keys == rt.Keys + {b};
    forall c | Kid(kids', c) && c != b
      ensures Kid(rest, c) && kids'[c] == rest[c] && tries'[c] == rt[c]
      ensures ReprOf(kids'[c]) <= region
    {
      assert Kid(rest, c);
    }
  }

  /** Recording what is below a node whose children and prefix are in place. */
  ghost method Seal(n: Node, tries: map<byte, Trie>, region: set<Node>)
    requires n.Stored() && Occupied(n.kind, n.count) && Forest(n.kids, tries, region) && n !in region
    modifies n`trie, n`Repr
    ensures Valid(n) && n.trie == Branch(n.Path(), tries) && n.Repr == region + {n}
  {
    n.trie := Branch(n.Path(), tries);
    n.Repr := region + {n};
    assert n.Repr - {n} == region;
  }

  /** The tree `r` has only nodes of `was` and new ones. */
  twostate predicate Within(new r: Ref, was: set<Node>)
    reads if r.Inner? then {r.node} else {}
  {
    forall m | m in ReprOf(r) :: m in was || fresh(m)
  }

  /** prefixMismatch: how many prefix bytes the key has. */
  method PrefixMismatch(n: Node, key: Key, d: nat) returns (pos: nat)
    requires n.Stored() && d + n.prefixLength <= |key|
    ensures pos == Matching(n.Path(), key, d)
  {
    pos := 0;
    if n.prefixLength > MAX_PREFIX {
      assert false;
    } else {
      while pos < n.prefixLength && key[d + pos] == n.prefix[pos]
        invariant pos <= n.prefixLength && forall i | 0 <= i < pos :: n.prefix[i] == key[d + i]
      {
        pos := pos + 1;
      }
    }
    MatchingIs(n.Path(), key, d, pos);
  }

  // ---------------------------------------------------------------- insertion

  method Insert(tab: Table, root: Ref, key: Key, d: nat, tid: nat) returns (r: Ref)
    requires tab.Valid() && tab.len <= MAX_PREFIX && tid < |tab.rows| && key == tab.rows[tid]
    requires ValidRef(root) && tab.CanInsert(TrieOf(root), d, tid)
    modifies ReprOf(root)
    ensures ValidRef(r) && r != Null && Within(r, old(ReprOf(root)))
    ensures TrieOf(r) == tab.Insert(old(TrieOf(root)), d, tid)
    decreases TrieOf(root), 2
  {
    match root
    case Null =>
      r := Pseudo(tid);
    case Pseudo(e) =>
      r := SplitLeaf(tab, e, key, d, tid);
    case Inner(n) =>
      Inside(n);
      if n.prefixLength != 0 {
        var mismatchPos := PrefixMismatch(n, key, d);
        if mismatchPos != n.prefixLength {
          r := SplitPrefix(tab, n, key, d, tid, mismatchPos);
          return;
        }
      }
      r := InsertBelow(tab, n, key, d, tid);
  }

  /** The key has the whole prefix: descend, or add a leaf here. */
  method InsertBelow(tab: Table, n: Node, key: Key, d: nat, tid: nat) returns (r: Ref)
    requires tab.Valid() && tab.len <= MAX_PREFIX && tid < |tab.rows| && key == tab.rows[tid]
    requires Valid(n) && tab.CanInsert(n.trie, d, tid) && Matching(n.trie.prefix, key, d) == |n.trie.prefix|
    modifies n.Repr
    ensures ValidRef(r) && r != Null && Within(r, old(n.Repr))
    ensures TrieOf(r) == tab.Insert(old(n.trie), d, tid)
    decreases n.trie, 1
  {
    Inside(n);
    var pos := d + n.prefixLength;
    var slot, child := n.FindChild(key[pos]);
    if child != Null {
      InsertIntoChild(tab, n, key[pos], slot, child, key, pos + 1, tid);
      r := Inner(n);
    } else {
      var m := AddLeaf(n, key[pos], tid);
      r := Inner(m);
    }
  }

  /** The tuple is inserted below child `b`, and the slot of `b` points to the result. */
  method InsertIntoChild(tab: Table, n: Node, b: byte, slot: int, child: Ref, key: Key, d: nat, tid: nat)
    requires tab.Valid() && tab.len <= MAX_PREFIX && tid < |tab.rows| && key == tab.rows[tid]
    requires Valid(n) && b in n.kids && b in n.trie.kids && child == n.kids[b] && n.SlotOf(b, slot)
    requires tab.CanInsert(n.trie.kids[b], d, tid)
    modifies n.Repr
    ensures Valid(n) && Within(Inner(n), old(n.Repr))
    ensures n.trie == old(n.trie).(kids := old(n.trie).kids[b := tab.Insert(old(n.trie).kids[b], d, tid)])
    decreases n.trie, 0
  {
    Inside(n);
    ghost var rest := SetAside(n, b);
    var c := InsertAside(tab, child, key, d, tid, n, n.kids - {b}, n.trie.kids - {b}, rest);
    PutBack(n, b, slot, c, rest);
  }

  /** The recursive call; `n` and the forest set aside do not change. */
  method InsertAside(tab: Table, child: Ref, key: Key, d: nat, tid: nat,
                     ghost n: Node, ghost kids: map<byte, Ref>, ghost tries: map<byte, Trie>, ghost rest: set<Node>)
    returns (c: Ref)
    requires tab.Valid() && tab.len <= MAX_PREFIX && tid < |tab.rows| && key == tab.rows[tid]
    requires ValidRef(child) && tab.CanInsert(TrieOf(child), d, tid)
    requires Forest(kids, tries, rest) && rest !! ReprOf(child) && n !in rest + ReprOf(child)
    modifies ReprOf(child)
    ensures ValidRef(c) && c != Null && Within(c, old(ReprOf(child)))
    ensures TrieOf(c) == tab.Insert(old(TrieOf(child)), d, tid)
    ensures unchanged(n) && Forest(kids, tries, rest) && rest !! ReprOf(c) && n !in ReprOf(c)
    decreases TrieOf(child), 3
  {
    c := Insert(tab, child, key, d, tid);
  }

  /** A child set aside, with what is left of the forest and the region. */
  lemma SetAside(n: Node, b: byte) returns (rest: set<Node>)
    requires Valid(n) && b in n.kids
    ensures Forest(n.kids - {b}, n.trie.kids - {b}, rest)
    ensures n !in rest && rest !! ReprOf(n.kids[b]) && rest <= n.Repr && ReprOf(n.kids[b]) <= n.Repr - {n}
    ensures ValidRef(n.kids[b]) && b in n.trie.kids && TrieOf(n.kids[b]) == n.trie.kids[b]
  {
    rest := n.Repr - {n} - ReprOf(n.kids[b]);
    Inside(n);
    ForestSplit(n.kids, n.trie.kids, n.Repr - {n}, b);
  }

  method PutBack(n: Node, b: byte, slot: int, c: Ref, ghost rest: set<Node>)
    requires n.Stored() && Occupied(n.kind, n.count) && b in n.kids && n.SlotOf(b, slot) && c != Null
    requires n.trie.Branch? && n.trie.prefix == n.Path()
    requires Forest(n.kids - {b}, n.trie.kids - {b}, rest) && ValidRef(c) && ReprOf(c) !! rest && n !in rest + ReprOf(c)
    modifies n
    ensures Valid(n) && n.Repr == rest + ReprOf(c) + {n}
    ensures n.trie == old(n.trie).(kids := old(n.trie).kids[b := TrieOf(c)])
  {
    ForestJoin(n.kids, n.trie.kids, rest, b, c);
    n.SetChild(b, slot, c);
    Seal(n, n.trie.kids[b := TrieOf(c)], rest + ReprOf(c));
  }

  method AddLeaf(n: Node, b: byte, tid: nat) returns (m: Node)
    requires Valid(n) && b !in n.kids
    modifies n
    ensures Valid(m) && Within(Inner(m), old(n.Repr))
    ensures m.trie == old(n.trie).(kids := old(n.trie).kids[b := Leaf(tid)])
  {
    Inside(n);
    ghost var region, tries := n.Repr - {n}, n.trie.kids;
    ForestAddLeaf(n.kids, tries, region, b, tid);
    m := n.InsertInto(b, Pseudo(tid));
    Seal(m, tries[b := Leaf(tid)], region);
  }

  /** A leaf becomes a 4-way node over it and the new leaf. */
  method SplitLeaf(tab: Table, e: nat, key: Key, d: nat, tid: nat) returns (r: Ref)
    requires tab.Valid() && tab.len <= MAX_PREFIX && tid < |tab.rows| && key == tab.rows[tid]
    requires tab.CanInsert(Leaf(e), d, tid)
    ensures ValidRef(r) && r != Null && Within(r, {})
    ensures TrieOf(r) == tab.SplitLeaf(e, tid, d)
  {
    var existingKey := tab.rows[e];
    var newPrefixLength := CommonLength(tab, e, key, d, tid);
    assert existingKey[d..][newPrefixLength] == existingKey[d + newPrefixLength];
    r := PairOfLeaves(key, d, newPrefixLength, existingKey[d + newPrefixLength], e, key[d + newPrefixLength], tid);
  }

  method PairOfLeaves(key: Key, d: nat, n: nat, b: byte, e: nat, c: byte, tid: nat) returns (r: Ref)
    requires d + n <= |key| && n < MAX_PREFIX && b != c
    ensures ValidRef(r) && r.Inner? && Within(r, {})
    ensures TrieOf(r) == Branch(key[d..d + n], map[b := Leaf(e), c := Leaf(tid)])
  {
    var newNode := NewNode4(key, d, n);
    r := Pair(newNode, b, Pseudo(e), c, tid);
  }

  /** The scan for the first byte in which two keys differ ends within the key. */
  method CommonLength(tab: Table, e: nat, key: Key, d: nat, tid: nat) returns (n: nat)
    requires tab.Valid() && tid < |tab.rows| && key == tab.rows[tid]
    requires tab.CanInsert(Leaf(e), d, tid)
    ensures n == Matching(tab.rows[e][d..], key, d)
  {
    ghost var m := Matching(tab.rows[e][d..], key, d);
    n := 0;
    assert tab.rows[e][d..][m] == tab.rows[e][d + m];
    while tab.rows[e][d + n] == key[d + n]
      invariant n <= m && forall i | 0 <= i < n :: tab.rows[e][d..][i] == key[d + i]
      decreases m - n
    {
      assert tab.rows[e][d..][n] == tab.rows[e][d + n];
      n := n + 1;
    }
    assert tab.rows[e][d..][n] == tab.rows[e][d + n];
    MatchingIs(tab.rows[e][d..], key, d, n);
  }

  /** A new 4-way node with `n` bytes of `src` as its prefix. */
  method NewNode4(src: seq<byte>, from: nat, n: nat) returns (newNode: Node)
    requires from + n <= |src| && n < MAX_PREFIX
    ensures fresh(newNode) && newNode.kind == Node4 && newNode.Layout() && newNode.kids == map[] && newNode.count == 0
    ensures newNode.Path() == src[from..from + n]
  {
    newNode := new Node(Node4);
    newNode.prefixLength := n;
    newNode.prefix := Memcpy(newNode.prefix, 0, src, from, Min(n, MAX_PREFIX));
  }

  /** Two children for a new 4-way node. */
  method Pair(newNode: Node, b: byte, low: Ref, c: byte, tid: nat) returns (r: Ref)
    requires newNode.kind == Node4 && newNode.Layout() && newNode.kids == map[] && newNode.count == 0
    requires ValidRef(low) && low != Null && newNode !in ReprOf(low) && b != c
    modifies newNode
    ensures r == Inner(newNode) && Valid(newNode) && newNode.Repr == ReprOf(low) + {newNode}
    ensures newNode.trie == Branch(old(newNode.Path()), map[b := TrieOf(low), c := Leaf(tid)])
  {
    TwoChildren(newNode, b, low, c, Pseudo(tid));
    PairForest(b, low, c, tid);
    Seal(newNode, map[b := TrieOf(low), c := Leaf(tid)], ReprOf(low));
    r := Inner(newNode);
  }

  method TwoChildren(newNode: Node, b: byte, low: Ref, c: byte, high: Ref)
    requires newNode.kind == Node4 && newNode.Layout() && newNode.kids == map[] && newNode.count == 0
    requires low != Null && high != Null && b != c
    modifies newNode`key, newNode`child, newNode`count, newNode`bytes, newNode`kids
    ensures newNode.Stored() && newNode.kids == map[b := low, c := high]
    ensures newNode.Path() == old(newNode.Path()) && Occupied(Node4, newNode.count)
  {
    var n := newNode.InsertNode4(b, low);
    n := newNode.InsertNode4(c, high);
    newNode.Lock();
  }

  lemma PairForest(b: byte, low: Ref, c: byte, tid: nat)
    requires ValidRef(low) && b != c
    ensures Forest(map[b := low, c := Pseudo(tid)], map[b := TrieOf(low), c := Leaf(tid)], ReprOf(low))
  {
    assert Opened(0);
  }

  /** A 4-way node takes the matching part of the prefix; below it the old node, with the rest, and the new leaf. */
  method SplitPrefix(tab: Table, node: Node, key: Key, d: nat, tid: nat, mismatchPos: nat) returns (r: Ref)
    requires tab.Valid() && tid < |tab.rows| && key == tab.rows[tid]
    requires Valid(node) && tab.CanInsert(node.trie, d, tid)
    requires mismatchPos == Matching(node.trie.prefix, key, d) < |node.trie.prefix|
    modifies node
    ensures ValidRef(r) && r != Null && Within(r, old(node.Repr))
    ensures TrieOf(r) == tab.SplitPrefix(old(node.trie), d, tid)
  {
    Inside(node);
    r := BreakPrefix(node, mismatchPos, key[d + mismatchPos], tid);
  }

  /** A branch over the rest of `t`, below byte `m` of its prefix, and a leaf. */
  ghost function Broken(t: Trie, path: Key, m: nat, c: byte, tid: nat): Trie
    requires t.Branch? && m < |t.prefix|
  {
    Branch(path, map[t.prefix[m] := t.(prefix := t.prefix[m + 1..]), c := Leaf(tid)])
  }

  method BreakPrefix(node: Node, m: nat, c: byte, tid: nat) returns (r: Ref)
    requires Valid(node) && m < |node.trie.prefix| && node.trie.prefix[m] != c
    modifies node
    ensures ValidRef(r) && r.Inner? && Within(r, old(node.Repr))
    ensures TrieOf(r) == Broken(old(node.trie), old(node.trie).prefix[..m], m, c, tid)
  {
    Inside(node);
    var newNode := NewNode4(node.prefix, 0, m);
    assert newNode.Path() == node.trie.prefix[..m];
    if node.prefixLength < MAX_PREFIX {
      r := BreakOff(node, m, newNode, c, tid);
    } else {
      assert false;
    }
  }

  /** The old node, with what is left of its prefix, and the new leaf go below the new node. */
  method BreakOff(node: Node, m: nat, newNode: Node, c: byte, tid: nat) returns (r: Ref)
    requires Valid(node) && m < |node.trie.prefix| && node.trie.prefix[m] != c
    requires newNode.kind == Node4 && newNode.Layout() && newNode.count == 0 && newNode.kids == map[]
    requires newNode !in node.Repr
    modifies node, newNode
    ensures r == Inner(newNode) && Valid(newNode) && newNode.Repr == old(node.Repr) + {newNode}
    ensures TrieOf(r) == Broken(old(node.trie), old(newNode.Path()), m, c, tid)
  {
    Inside(node);
    var b := node.prefix[m];
    CutPrefix(node, m + 1);
    r := Pair(newNode, b, Inner(node), c, tid);
  }

  /** Taking the first `m` bytes off a prefix. */
  method CutPrefix(node: Node, m: nat)
    requires Valid(node) && m <= |node.trie.prefix|
    modifies node`prefixLength, node`prefix, node`trie, node`Repr
    ensures Valid(node) && node.Repr == old(node.Repr)
    ensures node.trie == old(node.trie).(prefix := old(node.trie).prefix[m..])
  {
    Inside(node);
    ghost var region, tries, path := node.Repr - {node}, node.trie.kids, node.Path();
    var length := node.prefixLength - m;
    var prefix := Memmove(node.prefix, 0, m, Min(length, MAX_PREFIX));
    assert prefix[..length] == path[m..];
    node.StorePrefix(prefix, length);
    Seal(node, tries, region);
  }

  // ---------------------------------------------------------------- erasure

  /** leafMatches: whether a leaf's key has the rest of `key` from `depth` on. */
  method LeafMatches(tab: Table, tid: nat, key: Key, depth: nat) returns (matches: bool)
    requires tab.Valid() && tid < |tab.rows| && |key| == tab.len && depth <= tab.len
    ensures matches <==> tab.rows[tid][depth..] == key[depth..]
  {
    for i := depth to |key|
      invariant tab.rows[tid][depth..i] == key[depth..i]
    {
      assert tab.rows[tid][depth..i + 1] == tab.rows[tid][depth..i] + [tab.rows[tid][i]];
      assert key[depth..i + 1] == key[depth..i] + [key[i]];
      if tab.rows[tid][i] != key[i] {
        assert tab.rows[tid][depth..][i - depth] != key[depth..][i - depth];
        return false;
      }
    }
    assert tab.rows[tid][depth..] == tab.rows[tid][depth..|key|] && key[depth..] == key[depth..|key|];
    return true;
  }

  method Erase(tab: Table, root: Ref, key: Key, d: nat) returns (r: Ref)
    requires tab.Valid() && tab.len <= MAX_PREFIX && |key| == tab.len
    requires ValidRef(root) && tab.Fits(TrieOf(root), d, key)
    modifies ReprOf(root)
    ensures ValidRef(r) && Within(r, old(ReprOf(root)))
    ensures TrieOf(r) == tab.Erase(old(TrieOf(root)), d, key)
    decreases TrieOf(root), 4
  {
    match root
    case Null =>
      r := Null;
    case Pseudo(tid) =>
      var matches := LeafMatches(tab, tid, key, d);
      r := if matches then Null else root;
    case Inner(n) =>
      Inside(n);
      if n.prefixLength != 0 {
        var mismatchPos := PrefixMismatch(n, key, d);
        if mismatchPos != n.prefixLength {
          return root;
        }
      }
      r := EraseBelow(tab, n, key, d);
  }

  method EraseBelow(tab: Table, n: Node, key: Key, d: nat) returns (r: Ref)
    requires tab.Valid() && tab.len <= MAX_PREFIX && |key| == tab.len
    requires Valid(n) && tab.Fits(n.trie, d, key) && Matching(n.trie.prefix, key, d) == |n.trie.prefix|
    modifies n.Repr
    ensures ValidRef(r) && Within(r, old(n.Repr))
    ensures TrieOf(r) == tab.Erase(old(n.trie), d, key)
    decreases n.trie, 3
  {
    Inside(n);
    var pos := d + n.prefixLength;
    var slot, child := n.FindChild(key[pos]);
    if child == Null {
      return Inner(n);
    }
    r := EraseKid(tab, n, key, d, pos, slot, child);
  }

  /** The leaf to be erased goes, or the erasure goes on below. */
  method EraseKid(tab: Table, n: Node, key: Key, ghost d: nat, pos: nat, slot: int, child: Ref) returns (r: Ref)
    requires tab.Valid() && tab.len <= MAX_PREFIX && |key| == tab.len
    requires Valid(n) && tab.Fits(n.trie, d, key) && Matching(n.trie.prefix, key, d) == |n.trie.prefix|
    requires pos == d + |n.trie.prefix| && key[pos] in n.kids && child == n.kids[key[pos]] && n.SlotOf(key[pos], slot)
    modifies n.Repr
    ensures ValidRef(r) && Within(r, old(n.Repr))
    ensures TrieOf(r) == tab.Erase(old(n.trie), d, key)
    decreases n.trie, 2
  {
    var gone := LeafGoes(tab, n, child, key, pos, d);
    if gone {
      r := EraseLeaf(n, key[pos], slot);
      assert Opened(0);
    } else {
      r := EraseDeeper(tab, n, key[pos], slot, child, key, pos + 1);
    }
  }

  /** Something stays below the child for byte `pos` of the key, and so does the child. */
  ghost predicate Descends(tab: Table, t: Trie, d: nat, key: Key, pos: nat)
    requires tab.Valid() && |key| == tab.len && t.Branch? && tab.Fits(t, d, key)
    requires pos < |key| && key[pos] in t.kids
  {
    var kid := t.kids[key[pos]];
    && tab.Fits(kid, pos + 1, key) && tab.Erase(kid, pos + 1, key) != Nil
    && tab.Erase(t, d, key) == t.(kids := t.kids[key[pos] := tab.Erase(kid, pos + 1, key)])
  }

  /** Whether the child is the leaf to be erased. */
  method LeafGoes(tab: Table, n: Node, child: Ref, key: Key, pos: nat, ghost d: nat) returns (gone: bool)
    requires tab.Valid() && |key| == tab.len <= MAX_PREFIX
    requires Valid(n) && tab.Fits(n.trie, d, key) && Matching(n.trie.prefix, key, d) == |n.trie.prefix|
    requires pos == d + |n.trie.prefix| && key[pos] in n.kids && child == n.kids[key[pos]]
    ensures key[pos] in n.trie.kids && CanCollapse(n.trie)
    ensures gone ==> tab.Erase(n.trie, d, key) == DropKid(n.trie, key[pos])
    ensures !gone ==> Descends(tab, n.trie, d, key, pos)
  {
    KidRef(n, key[pos]);
    gone := false;
    if child.Pseudo? {
      gone := LeafMatches(tab, child.tid, key, pos);
      SkipByte(tab.rows[child.tid], key, pos);
    }
    if gone {
      tab.EraseHere(n.trie, d, key, pos, TrieOf(child));
    } else {
      tab.EraseBelow(n.trie, d, key, pos, TrieOf(child));
    }
  }

  /** The erasure goes on below child `b`; the node stays. */
  method EraseDeeper(tab: Table, n: Node, b: byte, slot: int, child: Ref, key: Key, d: nat) returns (r: Ref)
    requires tab.Valid() && tab.len <= MAX_PREFIX && |key| == tab.len
    requires Valid(n) && b in n.kids && b in n.trie.kids && child == n.kids[b] && n.SlotOf(b, slot)
    requires tab.Fits(n.trie.kids[b], d, key) && tab.Erase(n.trie.kids[b], d, key) != Nil
    modifies n.Repr
    ensures r == Inner(n) && Valid(n) && Within(r, old(n.Repr))
    ensures n.trie == old(n.trie).(kids := old(n.trie).kids[b := tab.Erase(old(n.trie).kids[b], d, key)])
    decreases n.trie, 1
  {
    EraseInChild(tab, n, b, slot, child, key, d);
    r := Inner(n);
  }

  /** Rows that share byte `pos` match from `pos` on when they match from the next byte on. */
  lemma SkipByte(row: Key, key: Key, pos: nat)
    requires pos < |row| == |key| && row[pos] == key[pos]
    ensures row[pos..] == key[pos..] <==> row[pos + 1..] == key[pos + 1..]
  {
    assert row[pos..] == [row[pos]] + row[pos + 1..] && key[pos..] == [key[pos]] + key[pos + 1..];
  }

  /** A child pointer and its trie. */
  lemma KidRef(n: Node, b: byte)
    requires Valid(n) && b in n.kids
    ensures b in n.trie.kids && TrieOf(n.kids[b]) == n.trie.kids[b] && ValidRef(n.kids[b])
    ensures ReprOf(n.kids[b]) <= n.Repr
  {
    var rest := SetAside(n, b);
  }

  method EraseInChild(tab: Table, n: Node, b: byte, slot: int, child: Ref, key: Key, d: nat)
    requires tab.Valid() && tab.len <= MAX_PREFIX && |key| == tab.len
    requires Valid(n) && b in n.kids && b in n.trie.kids && child == n.kids[b] && n.SlotOf(b, slot)
    requires tab.Fits(n.trie.kids[b], d, key) && tab.Erase(n.trie.kids[b], d, key) != Nil
    modifies n.Repr
    ensures Valid(n) && Within(Inner(n), old(n.Repr))
    ensures n.trie == old(n.trie).(kids := old(n.trie).kids[b := tab.Erase(old(n.trie).kids[b], d, key)])
    decreases n.trie, 0
  {
    Inside(n);
    ghost var rest := SetAside(n, b);
    var c := EraseAside(tab, child, key, d, n, n.kids - {b}, n.trie.kids - {b}, rest);
    PutBack(n, b, slot, c, rest);
  }

  method EraseAside(tab: Table, child: Ref, key: Key, d: nat,
                    ghost n: Node, ghost kids: map<byte, Ref>, ghost tries: map<byte, Trie>, ghost rest: set<Node>)
    returns (c: Ref)
    requires tab.Valid() && tab.len <= MAX_PREFIX && |key| == tab.len
    requires ValidRef(child) && tab.Fits(TrieOf(child), d, key) && tab.Erase(TrieOf(child), d, key) != Nil
    requires Forest(kids, tries, rest) && rest !! ReprOf(child) && n !in rest + ReprOf(child)
    modifies ReprOf(child)
    ensures ValidRef(c) && c != Null && Within(c, old(ReprOf(child)))
    ensures TrieOf(c) == tab.Erase(old(TrieOf(child)), d, key)
    ensures unchanged(n) && Forest(kids, tries, rest) && rest !! ReprOf(c) && n !in ReprOf(c)
    decreases TrieOf(child), 5
  {
    c := Erase(tab, child, key, d);
  }

  /** A node's prefix, a key byte and the prefix of any child are stored whole in one node. */
  ghost predicate CanCollapse(t: Trie) {
    && t.Branch?
    && forall u {:trigger Opened(u)} | Opened(u) ::
         forall c | c in t.kids ::
           t.kids[c] != Nil && (t.kids[c].Branch? ==> |t.prefix| + 1 + |t.kids[c].prefix| < MAX_PREFIX)
  }

  /** Without child `b`, `t` is `u`. */
  ghost predicate Dropped(t: Trie, b: byte, u: Trie) {
    forall i {:trigger Opened(i)} | Opened(i) :: t.Branch? && b in t.kids && |t.kids| >= 2 && u == DropKid(t, b)
  }

  /** The leaf below byte `b` goes. */
  method EraseLeaf(n: Node, b: byte, slot: int) returns (r: Ref)
    requires Valid(n) && b in n.kids && b in n.trie.kids && n.SlotOf(b, slot)
    requires CanCollapse(n.trie)
    modifies n.Repr
    ensures ValidRef(r) && Within(r, old(n.Repr))
    ensures Dropped(old(n.trie), b, TrieOf(r))
  {
    if n.kind == Node4 {
      r := EraseNode4(n, b, slot);
    } else {
      var m := EraseLarge(n, b, slot);
      r := Inner(m);
    }
  }

  /** Nodes of the other kinds keep two children or more. */
  method EraseLarge(n: Node, b: byte, slot: int) returns (m: Node)
    requires n.kind != Node4 && Valid(n) && b in n.kids && b in n.trie.kids && n.SlotOf(b, slot)
    modifies n
    ensures (m == n || fresh(m)) && Valid(m) && m.Repr == old(n.Repr) - {n} + {m}
    ensures Dropped(old(n.trie), b, m.trie)
  {
    Inside(n);
    ghost var region, tries := n.Repr - {n}, n.trie.kids;
    ForestRemove(n.kids, tries, region, b);
    DropOne(tries, b);
    m := n.RemoveLarge(b, slot);
    Seal(m, tries - {b}, region);
  }

  /** eraseNode4: a node left with one child is replaced by that child. */
  method EraseNode4(n: Node, b: byte, slot: int) returns (r: Ref)
    requires n.kind == Node4 && Valid(n) && b in n.kids && b in n.trie.kids && n.SlotOf(b, slot)
    requires CanCollapse(n.trie)
    modifies n.Repr
    ensures ValidRef(r) && ReprOf(r) <= old(n.Repr)
    ensures Dropped(old(n.trie), b, TrieOf(r))
  {
    Inside(n);
    ghost var region, t := n.Repr - {n}, n.trie;
    ForestRemove(n.kids, t.kids, region, b);
    DropOne(t.kids, b);
    n.RemoveSmall(b, slot);
    if n.count == 1 {
      ghost var c;
      c, r := TakeOnlyChild(n, t.kids - {b}, region);
      assert OtherKey(t.kids, b) in t.kids - {b};
    } else {
      Seal(n, t.kids - {b}, region);
      r := Inner(n);
    }
  }

  /** The child left in a one-way node, as the node's replacement. */
  method TakeOnlyChild(n: Node, ghost tries: map<byte, Trie>, ghost region: set<Node>) returns (ghost c: byte, r: Ref)
    requires n.kind == Node4 && n.Stored() && n.count == 1 && Forest(n.kids, tries, region) && n !in region
    requires CanCollapse(Branch(n.Path(), tries))
    modifies region
    ensures tries.Keys == {c} && ValidRef(r) && ReprOf(r) <= region
    ensures TrieOf(r) == Join(n.Path(), c, tries[c])
  {
    var b, child := n.OnlyChild();
    ForestSplit(n.kids, tries, region, b);
    if child.Inner? {
      Inside(child.node);
      assert Opened(0);
      Collapse(n, b, child.node);
    }
    c, r := b, child;
  }

  /** The prefix of a one-way node and its key byte go in front of the prefix of its child. */
  method Collapse(n: Node, c: byte, child: Node)
    requires n.Stored() && Valid(child) && n != child
    requires n.prefixLength + 1 + child.prefixLength < MAX_PREFIX
    modifies child
    ensures Valid(child) && child.Repr == old(child.Repr)
    ensures child.trie == Join(n.Path(), c, old(child.trie))
  {
    Inside(child);
    ghost var region, tries, path := child.Repr - {child}, child.trie.kids, child.Path();
    var prefix := Concatenate(n.prefix, n.prefixLength, c, child.prefix, child.prefixLength);
    var length := child.prefixLength + n.prefixLength + 1;
    assert prefix[..length] == n.Path() + [c] + path;
    child.StorePrefix(prefix, length);
    Seal(child, tries, region);
  }

  method Concatenate(p: seq<byte>, n: nat, c: byte, q: seq<byte>, m: nat) returns (r: seq<byte>)
    requires |p| == |q| == MAX_PREFIX && n + 1 + m < MAX_PREFIX
    ensures |r| == MAX_PREFIX && r[..n + 1 + m] == p[..n] + [c] + q[..m]
  {
    var prefix := p;
    var l1 := n;
    if l1 < MAX_PREFIX {
      prefix := prefix[l1 := c];
      l1 := l1 + 1;
    }
    if l1 < MAX_PREFIX {
      var l2 := Min(m, MAX_PREFIX - l1);
      prefix := Memcpy(prefix, l1, q, 0, l2);
      l1 := l1 + l2;
    }
    r := Memcpy(q, 0, prefix, 0, Min(l1, MAX_PREFIX));
  }

  // ---------------------------------------------------------------- search

  /** The search has come to `r` with `depth` bytes of the key behind it, and has `want` to find. */
  ghost predicate Searching(tab: Table, r: Ref, depth: nat, key: Key, want: Trie)
    reads if r.Inner? then {r.node} + r.node.Repr else {}
  {
    && (r.Inner? ==> r.node.trie.Branch? && depth + |r.node.trie.prefix| <= |key|)
    && forall u {:trigger Opened(u)} | Opened(u) ::
         && tab.Valid() && |key| == tab.len && ValidRef(r)
         && tab.Fits(TrieOf(r), depth, key) && tab.Find(TrieOf(r), depth, key) == want
  }

  /** The key has the whole prefix of `t` from byte `d` on. */
  ghost predicate HasPrefix(t: Trie, key: Key, d: nat) {
    && t.Branch? && d + |t.prefix| <= |key|
    && forall u {:trigger Opened(u)} | Opened(u) :: Matching(t.prefix, key, d) == |t.prefix|
  }

  ghost predicate IsKid(kid: Trie, t: Trie)
    requires t.Branch?
  {
    exists b :: b in t.kids && t.kids[b] == kid
  }

  /** findChild for the byte after the prefix: the search goes on there, or there is nothing to find. */
  method NextChild(tab: Table, n: Node, key: Key, pos: nat, ghost d: nat, ghost want: Trie) returns (child: Ref)
    requires Searching(tab, Inner(n), d, key, want)
    requires HasPrefix(n.trie, key, d) && pos == d + |n.trie.prefix|
    ensures Searching(tab, child, pos + 1, key, want)
    ensures child != Null ==> IsKid(TrieOf(child), n.trie)
  {
    assert Opened(0);
    Inside(n);
    var slot;
    slot, child := n.FindChild(key[pos]);
    if child != Null {
      KidRef(n, key[pos]);
    }
  }

  /** The optimistic search: no prefix is ever long enough to be skipped, so it is exact. */
  method Lookup(tab: Table, root: Ref, key: Key) returns (r: Ref)
    requires tab.Valid() && tab.len <= MAX_PREFIX && |key| == tab.len
    requires ValidRef(root) && tab.Fits(TrieOf(root), 0, key)
    ensures !r.Inner? && TrieOf(r) == tab.Find(TrieOf(root), 0, key)
  {
    ghost var want := tab.Find(TrieOf(root), 0, key);
    var node: Ref, depth: nat, skippedPrefix: bool := root, 0, false;
    while node != Null
      invariant Searching(tab, node, depth, key, want) && !skippedPrefix
      decreases node != Null, TrieOf(node)
    {
      if node.Pseudo? {
        r := CheckLeaf(tab, node.tid, key, depth, skippedPrefix, want);
        return;
      }
      node, depth, skippedPrefix := DescendOptimistic(tab, node.node, key, depth, skippedPrefix, want);
    }
    assert Opened(0);
    return Null;
  }

  /** The search has come to a leaf: no check is needed after the last byte. */
  method CheckLeaf(tab: Table, tid: nat, key: Key, depth: nat, skippedPrefix: bool, ghost want: Trie)
    returns (r: Ref)
    requires Searching(tab, Pseudo(tid), depth, key, want) && !skippedPrefix
    ensures !r.Inner? && TrieOf(r) == want
  {
    assert Opened(0);
    if !skippedPrefix && depth == |key| {
      return Pseudo(tid);
    }
    if depth != |key| {
      var matches := LeafMatches(tab, tid, key, if skippedPrefix then 0 else depth);
      if !matches {
        return Null;
      }
    }
    return Pseudo(tid);
  }

  /** One round of the optimistic search; a null child says that there is nothing to find. */
  method DescendOptimistic(tab: Table, n: Node, key: Key, depth0: nat, skipped0: bool, ghost want: Trie)
    returns (child: Ref, depth: nat, skippedPrefix: bool)
    requires Searching(tab, Inner(n), depth0, key, want) && !skipped0
    ensures Searching(tab, child, depth, key, want) && !skippedPrefix
    ensures child != Null ==> IsKid(TrieOf(child), n.trie)
  {
    var matched;
    matched, depth, skippedPrefix := SkipPrefix(tab, n, key, depth0, skipped0, want);
    if !matched {
      return Null, depth, skippedPrefix;
    }
    child := NextChild(tab, n, key, depth, depth0, want);
    depth := depth + 1;
  }

  /** The prefix is compared with the key; one of MAX_PREFIX bytes or more would be skipped. */
  method SkipPrefix(tab: Table, n: Node, key: Key, depth0: nat, skipped0: bool, ghost want: Trie)
    returns (matched: bool, depth: nat, skippedPrefix: bool)
    requires Searching(tab, Inner(n), depth0, key, want) && !skipped0
    ensures !skippedPrefix && depth == if matched then depth0 + |n.trie.prefix| else depth0
    ensures if matched then HasPrefix(n.trie, key, depth0) else Searching(tab, Null, depth, key, want)
  {
    assert Opened(0);
    Inside(n);
    depth, skippedPrefix := depth0, skipped0;
    if n.prefixLength != 0 {
      if n.prefixLength < MAX_PREFIX {
        var matching := PrefixMismatch(n, key, depth);
        if matching != n.prefixLength {
          return false, depth, skippedPrefix;
        }
      } else {
        skippedPrefix := true;
        assert false;
      }
      depth := depth + n.prefixLength;
    }
    matched := true;
  }

  /** The search that always compares prefixes: the same result. */
  method LookupPessimistic(tab: Table, root: Ref, key: Key) returns (r: Ref)
    requires tab.Valid() && tab.len <= MAX_PREFIX && |key| == tab.len
    requires ValidRef(root) && tab.Fits(TrieOf(root), 0, key)
    ensures !r.Inner? && TrieOf(r) == tab.Find(TrieOf(root), 0, key)
  {
    ghost var want := tab.Find(TrieOf(root), 0, key);
    var node: Ref, depth: nat := root, 0;
    while node != Null
      invariant Searching(tab, node, depth, key, want)
      decreases node != Null, TrieOf(node)
    {
      if node.Pseudo? {
        assert Opened(0);
        var matches := LeafMatches(tab, node.tid, key, depth);
        return if matches then node else Null;
      }
      node, depth := DescendPessimistic(tab, node.node, key, depth, want);
    }
    assert Opened(0);
    return Null;
  }

  method DescendPessimistic(tab: Table, n: Node, key: Key, depth0: nat, ghost want: Trie)
    returns (child: Ref, depth: nat)
    requires Searching(tab, Inner(n), depth0, key, want)
    ensures Searching(tab, child, depth, key, want)
    ensures child != Null ==> IsKid(TrieOf(child), n.trie)
  {
    depth := depth0;
    var matching := ComparePrefix(tab, n, key, depth, want);
    if matching != n.prefixLength {
      child := Null;
      return;
    }
    depth := depth + n.prefixLength;
    child := NextChild(tab, n, key, depth, depth0, want);
    depth := depth + 1;
  }

  method ComparePrefix(tab: Table, n: Node, key: Key, depth: nat, ghost want: Trie) returns (matching: nat)
    requires Searching(tab, Inner(n), depth, key, want)
    ensures n.prefixLength == |n.trie.prefix|
    ensures if matching == n.prefixLength then HasPrefix(n.trie, key, depth) else Searching(tab, Null, depth, key, want)
  {
    assert Opened(0);
    Inside(n);
    matching := PrefixMismatch(n, key, depth);
  }

  method Minimum(root: Ref, ghost tab: Table) returns (r: Ref)
    requires ValidRef(root) && (root != Null ==> tab.NoEmptyBranch(TrieOf(root)))
    ensures root == Null ==> r == Null
    ensures root != Null ==> r == Pseudo(tab.Leftmost(TrieOf(root)))
    decreases TrieOf(root)
  {
    if !root.Inner? {
      return root;
    }
    var child := DescendLeft(root.node, tab);
    r := Minimum(child, tab);
  }

  /** The child with the least key byte has the least leaf below it. */
  method DescendLeft(n: Node, ghost tab: Table) returns (child: Ref)
    requires Valid(n) && tab.NoEmptyBranch(n.trie)
    ensures ValidRef(child) && child != Null && IsKid(TrieOf(child), n.trie)
    ensures tab.NoEmptyBranch(TrieOf(child)) && tab.Leftmost(TrieOf(child)) == tab.Leftmost(n.trie)
  {
    Inside(n);
    ghost var b;
    b, child := n.FirstChild();
    KidRef(n, b);
    tab.LeftmostBelow(n.trie, b);
  }

  method Maximum(root: Ref, ghost tab: Table) returns (r: Ref)
    requires ValidRef(root) && (root != Null ==> tab.NoEmptyBranch(TrieOf(root)))
    ensures root == Null ==> r == Null
    ensures root != Null ==> r == Pseudo(tab.Rightmost(TrieOf(root)))
    decreases TrieOf(root)
  {
    if !root.Inner? {
      return root;
    }
    var child := DescendRight(root.node, tab);
    r := Maximum(child, tab);
  }

  /** The child with the greatest key byte has the greatest leaf below it. */
  method DescendRight(n: Node, ghost tab: Table) returns (child: Ref)
    requires Valid(n) && tab.NoEmptyBranch(n.trie)
    ensures ValidRef(child) && child != Null && IsKid(TrieOf(child), n.trie)
    ensures tab.NoEmptyBranch(TrieOf(child)) && tab.Rightmost(TrieOf(child)) == tab.Rightmost(n.trie)
  {
    Inside(n);
    ghost var b;
    b, child := n.LastChild();
    KidRef(n, b);
    tab.RightmostBelow(n.trie, b);
  }
}
