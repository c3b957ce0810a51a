/** Inner nodes of the radix tree and the in-place edits of their children. The fixed-size arrays of a
    node are members of the struct, so they are value fields here. */
module ArtNode {
  import opened Gates
  import opened Bytes
  import opened ArtLayout
  import opened ArtTrie

  const MAX_PREFIX := 9

  datatype Kind = Node4 | Node16 | Node48 | Node256

  /** A child pointer: null, a tagged tuple id, or an inner node. */
  datatype Ref = Null | Pseudo(tid: nat) | Inner(node: Node)

  /** How many children a node of each kind may have in a tree: it grows above and shrinks below. */
  predicate Occupied(kind: Kind, count: nat) {
    match kind
    case Node4 => 2 <= count <= 4
    case Node16 => 4 <= count <= 16
    case Node48 => 13 <= count <= 48
    case Node256 => 38 <= count <= 256
  }

  class Node {
    const kind: Kind
    var prefixLength: nat
    var count: nat
    var prefix: seq<byte>
    var key: seq<byte>
    var childIndex: seq<nat>
    var child: seq<Ref>

    ghost var bytes: seq<byte>      // the keys of a 16-way node with the sign flips undone
    ghost var kids: map<byte, Ref>  // the children by key byte
    ghost var trie: Trie            // the trie of the tree below this node
    ghost var Repr: set<Node>       // the nodes of that tree

    /** The arrays of the node's kind hold exactly `kids`, and the prefix is stored whole. */
    ghost predicate Layout()
      reads this
    {
      && prefixLength < MAX_PREFIX == |prefix|
      && (forall b | b in kids :: kids[b] != Null)
      && match kind
         case Node4 => |key| == 4 && Sorted(key, child, count, kids)
         case Node16 => |key| == 16 && Flips(key, bytes) && Sorted(bytes, child, count, kids)
         case Node48 => Indexed(childIndex, child, count, kids, Null)
         case Node256 => Direct(child, count, kids, Null)
    }

    /** Layout for the code above this module, which must not look into the arrays: it holds wherever an index is
        named as Looked, and only Unlock below names one. */
    ghost predicate Stored()
      reads this
    {
      && prefixLength < MAX_PREFIX == |prefix| && |kids| == count
      && (forall b | b in kids :: kids[b] != Null)
      && (forall u {:trigger Looked(u)} | Looked(u) :: Layout())
    }

    lemma Unlock()
      requires Stored()
      ensures Layout()
    {
      assert Looked(0);
    }

    lemma Lock()
      requires Layout()
      ensures Stored()
    {
    }

    /** The compressed path. */
    ghost function Path(): Key
      reads this
      requires prefixLength <= |prefix|
    {
      prefix[..prefixLength]
    }

    constructor (kind: Kind)
      ensures this.kind == kind && Layout() && kids == map[] && count == 0 && prefixLength == 0
      ensures forall i | 0 <= i < |child| :: child[i] == Null
      ensures |childIndex| == 256 && forall i | 0 <= i < 256 :: childIndex[i] == EMPTY
    {
      this.kind := kind;
      prefixLength, count := 0, 0;
      prefix := seq(MAX_PREFIX, _ => 0);
      key := seq(match kind case Node4 => 4 case Node16 => 16 case _ => 0, _ => 0);
      bytes := seq(16, _ => 128);
      childIndex := seq(256, _ => EMPTY);
      child := seq(match kind case Node4 => 4 case Node16 => 16 case Node48 => 48 case Node256 => 256, _ => Null);
      kids := map[];
    }

    /** The slot of child `b`: a position that holds it, or -1 (a 256-way node has a slot for every byte). */
    ghost predicate IsSlot(b: byte, slot: int)
      reads this
    {
      && -1 <= slot < |child|
      && (slot == -1 ==> b !in kids)
      && (slot >= 0 ==>
            match kind
            case Node4 => slot < count && slot < |key| && key[slot] == b
            case Node16 => slot < count && slot < |key| && Flip(key[slot]) == b
            case Node48 => |childIndex| == 256 && childIndex[b] == slot
            case Node256 => slot == b)
    }

    /** IsSlot, locked away like Layout. */
    ghost predicate SlotOf(b: byte, slot: int)
      reads this
    {
      forall u {:trigger Looked(u)} | Looked(u) :: IsSlot(b, slot)
    }

    /** findChild: the slot and what it holds. */
    method FindChild(b: byte) returns (slot: int, c: Ref)
      requires Stored()
      ensures SlotOf(b, slot)
      ensures c == if b in kids then kids[b] else Null
    {
      Unlock();
      match kind
      case Node4 =>
        slot := ScanFor(key, count, b);
        SortedFind(key, child, count, kids, b, slot);
        c := if slot < 0 then Null else child[slot];
      case Node16 =>
        slot := ScanFor(key, count, Flip(b));
        FlippedFind(key, bytes, child, count, kids, b, slot);
        c := if slot < 0 then Null else child[slot];
      case Node48 =>
        slot := if childIndex[b] != EMPTY then childIndex[b] else -1;
        c := if slot < 0 then Null else child[slot];
      case Node256 =>
        slot, c := b, child[b];
    }

    /** Storing `c` through the pointer to the slot of child `b`. */
    method SetChild(b: byte, slot: int, c: Ref)
      requires Stored() && b in kids && SlotOf(b, slot) && c != Null
      modifies this`child, this`kids
      ensures Stored() && kids == old(kids)[b := c]
    {
      Unlock();
      assert Looked(0);
      match kind
      case Node4 => SetChild4(b, slot, c);
      case Node16 => SetChild16(b, slot, c);
      case Node48 => SetChild48(b, slot, c);
      case Node256 => SetChild256(b, c);
    }

    method SetChild4(b: byte, slot: nat, c: Ref)
      requires kind == Node4 && Layout() && slot < count && key[slot] == b && c != Null
      modifies this`child, this`kids
      ensures Layout() && kids == old(kids)[b := c]
    {
      SetSorted(key, child, count, kids, b, slot, c);
      child := child[slot := c];
      kids := kids[b := c];
    }

    method SetChild16(b: byte, slot: nat, c: Ref)
      requires kind == Node16 && Layout() && slot < count && Flip(key[slot]) == b && c != Null
      modifies this`child, this`kids
      ensures Layout() && kids == old(kids)[b := c]
    {
      FlipKeepsOrder(bytes[slot], b);
      SetSorted(bytes, child, count, kids, b, slot, c);
      child := child[slot := c];
      kids := kids[b := c];
    }

    method SetChild48(b: byte, slot: nat, c: Ref)
      requires kind == Node48 && Layout() && b in kids && childIndex[b] == slot && c != Null
      modifies this`child, this`kids
      ensures Layout() && kids == old(kids)[b := c]
    {
      SetIndexed(childIndex, child, count, kids, Null, b, c);
      child := child[slot := c];
      kids := kids[b := c];
    }

    method SetChild256(b: byte, c: Ref)
      requires kind == Node256 && Layout() && b in kids && c != Null
      modifies this`child, this`kids
      ensures Layout() && kids == old(kids)[b := c]
    {
      assert kids[b := c].Keys == kids.Keys;
      assert |kids[b := c].Keys| == |kids.Keys|;
      child := child[b := c];
      kids := kids[b := c];
    }

    /** A new prefix is stored; the children stay. */
    method StorePrefix(p: seq<byte>, length: nat)
      requires Stored() && length < MAX_PREFIX == |p|
      modifies this`prefixLength, this`prefix
      ensures Stored() && prefix == p && prefixLength == length
    {
      Unlock();
      prefixLength, prefix := length, p;
    }

    /** copyPrefix. */
    method CopyPrefix(dst: Node)
      requires Layout() && dst != this && |dst.prefix| == MAX_PREFIX
      modifies dst`prefixLength, dst`prefix
      ensures dst.prefixLength == prefixLength && |dst.prefix| == MAX_PREFIX && dst.Path() == Path()
    {
      dst.prefixLength := prefixLength;
      dst.prefix := Memcpy(dst.prefix, 0, prefix, 0, Min(prefixLength, MAX_PREFIX));
    }

    /** What adding child `c` under the absent byte `b` makes of this node: it, or the larger node `r` in its place,
        has that child too and nothing else differs. */
    twostate predicate Added(b: byte, c: Ref, new r: Node)
      reads this, r
    {
      && (r == this || fresh(r))
      && r.Layout()
      && r.kids == old(kids)[b := c]
      && r.count == old(count) + 1
      && old(prefixLength <= |prefix|) && r.Path() == old(Path())
    }

    /** What growing or shrinking makes of this node: a new node of kind `k` with the same children and prefix. */
    twostate predicate Copied(k: Kind, new r: Node)
      reads this, r
    {
      && fresh(r) && r.kind == k
      && r.Layout()
      && r.kids == kids && r.count == count
      && prefixLength <= |prefix| && r.Path() == Path()
    }

    method InsertNode4(b: byte, c: Ref) returns (r: Node)
      requires kind == Node4 && Layout() && b !in kids && c != Null
      modifies this`key, this`child, this`count, this`bytes, this`kids
      ensures Added(b, c, r)
      ensures if old(count) < 4 then r == this else unchanged(this) && r != this
      ensures old(count) >= 1 ==> Occupied(r.kind, r.count)
    {
      if count < 4 {
        InsertElement4(b, c);
        r := this;
      } else {
        var newNode := GrowNode4();
        r := newNode.InsertNode16(b, c);
      }
    }

    method InsertElement4(b: byte, c: Ref)
      requires kind == Node4 && Layout() && b !in kids && c != Null && count < 4
      modifies this`key, this`child, this`count, this`bytes, this`kids
      ensures Layout() && kids == old(kids)[b := c] && count == old(count) + 1
    {
      var pos := InsertPosition4(b);
      var k := OpenGap(key, count, pos, b);
      var ch := OpenGap(child, count, pos, c);
      InsertSorted(key, k, child, ch, count, kids, b, c, pos);
      key, child := k, ch;
      count := count + 1;
      kids := kids[b := c];
    }

    method InsertPosition4(b: byte) returns (pos: nat)
      requires kind == Node4 && Layout() && b !in kids
      ensures InsertsAt(key, count, b, pos)
    {
      NotAmong(key, child, count, kids, b);
      pos := 0;
      while pos < count && key[pos] < b
        invariant pos <= count && forall i | 0 <= i < pos :: key[i] < b
      {
        pos := pos + 1;
      }
    }

    method GrowNode4() returns (newNode: Node)
      requires kind == Node4 && Layout() && count == 4
      ensures Copied(Node16, newNode)
    {
      newNode := new Node(Node16);
      newNode.count := 4;
      CopyPrefix(newNode);
      var k, bs, ch := CopyChildren4(newNode.child);
      newNode.key, newNode.bytes, newNode.child, newNode.kids := k, bs, ch, kids;
    }

    /** The keys, flipped, and the children, in the arrays of the new 16-way node. */
    method CopyChildren4(ch0: seq<Ref>) returns (k: seq<byte>, ghost bs: seq<byte>, ch: seq<Ref>)
      requires kind == Node4 && Layout() && count == 4 && |ch0| == 16
      ensures |k| == 16 && Flips(k, bs) && Sorted(bs, ch, 4, kids)
    {
      k, bs := FlipKeys();
      ch := Memcpy(ch0, 0, child, 0, count);
      CopySorted(key, child, bs, ch, 4, kids);
    }

    method FlipKeys() returns (flipped: seq<byte>, ghost unflipped: seq<byte>)
      requires kind == Node4 && |key| == 4
      ensures |flipped| == 16 && Flips(flipped, unflipped) && forall i | 0 <= i < 4 :: unflipped[i] == key[i]
    {
      flipped := seq(16, _ => 0);
      for i := 0 to 4
        invariant |flipped| == 16 && forall j | 0 <= j < 16 :: flipped[j] == if j < i then Flip(key[j]) else 0
      {
        flipped := flipped[i := Flip(key[i])];
      }
      unflipped := key + seq(12, _ => 128);
    }

    method InsertNode16(b: byte, c: Ref) returns (r: Node)
      requires kind == Node16 && Layout() && b !in kids && c != Null
      modifies this`key, this`child, this`count, this`bytes, this`kids
      ensures Added(b, c, r)
      ensures if old(count) < 16 then r == this else unchanged(this) && r != this
      ensures old(count) >= 3 ==> Occupied(r.kind, r.count)
    {
      if count < 16 {
        InsertElement16(b, c);
        r := this;
      } else {
        var newNode := GrowNode16();
        r := newNode.InsertNode48(b, c);
      }
    }

    method InsertElement16(b: byte, c: Ref)
      requires kind == Node16 && Layout() && b !in kids && c != Null && count < 16
      modifies this`key, this`child, this`count, this`bytes, this`kids
      ensures Layout() && kids == old(kids)[b := c] && count == old(count) + 1
    {
      var pos := InsertPosition16(b);
      var k, ch, bs := OpenGap16(b, c, pos);
      key, child, bytes, count, kids := k, ch, bs, count + 1, kids[b := c];
    }

    method OpenGap16(b: byte, c: Ref, pos: nat) returns (k: seq<byte>, ch: seq<Ref>, ghost bs: seq<byte>)
      requires kind == Node16 && Layout() && b !in kids && count < 16 && InsertsAt(bytes, count, b, pos)
      ensures |k| == 16 && Flips(k, bs) && Sorted(bs, ch, count + 1, kids[b := c])
    {
      k := OpenGap(key, count, pos, Flip(b));
      ch := OpenGap(child, count, pos, c);
      bs := FlipsOpened(key, bytes, k, count, pos, b);
      InsertSorted(bytes, bs, child, ch, count, kids, b, c, pos);
    }

    /** The first lane whose key is greater in signed order, found by the SIMD comparison. */
    method InsertPosition16(b: byte) returns (pos: nat)
      requires kind == Node16 && Layout() && b !in kids
      ensures InsertsAt(bytes, count, b, pos)
    {
      pos := 0;
      while pos < count && !(Signed(Flip(b)) < Signed(key[pos]))
        invariant pos <= count && forall i | 0 <= i < pos :: !(Signed(Flip(b)) < Signed(key[i]))
      {
        pos := pos + 1;
      }
      FlippedInsertsAt(key, bytes, child, count, kids, b, pos);
    }

    method GrowNode16() returns (newNode: Node)
      requires kind == Node16 && Layout() && count == 16
      ensures Copied(Node48, newNode)
    {
      newNode := new Node(Node48);
      var index, ch := CopyChildren16(newNode.child);
      CopyPrefix(newNode);
      newNode.childIndex, newNode.child, newNode.count, newNode.kids := index, ch, count, kids;
    }

    /** The children, and where each is, in the arrays of the new 48-way node. */
    method CopyChildren16(ch0: seq<Ref>) returns (index: seq<nat>, ch: seq<Ref>)
      requires kind == Node16 && Layout() && count == 16
      requires |ch0| == 48 && forall i | 0 <= i < 48 :: ch0[i] == Null
      ensures Indexed(index, ch, 16, kids, Null)
    {
      ch := Memcpy(ch0, 0, child, 0, count);
      index := IndexChildren();
      GrowIndexed(bytes, child, kids, index, ch, Null);
    }

    /** childIndex of the new 48-way node: the child of each key byte stays at its position. */
    method IndexChildren() returns (index: seq<nat>)
      requires kind == Node16 && Layout() && count == 16
      ensures |index| == 256
      ensures forall j | 0 <= j < 16 :: index[bytes[j]] == j
      ensures forall e: byte :: index[e] == EMPTY || (index[e] < 16 && bytes[index[e]] == e)
    {
      index := seq(256, _ => EMPTY);
      for i := 0 to count
        invariant |index| == 256
        invariant forall j | 0 <= j < i :: index[bytes[j]] == j
        invariant forall e: byte :: index[e] == EMPTY || (index[e] < i && bytes[index[e]] == e)
      {
        FlipKeepsOrder(bytes[i], bytes[i]);
        index := index[Flip(key[i]) := i];
      }
    }

    method InsertNode48(b: byte, c: Ref) returns (r: Node)
      requires kind == Node48 && Layout() && b !in kids && c != Null
      modifies this`childIndex, this`child, this`count, this`kids
      ensures Added(b, c, r)
      ensures if old(count) < 48 then r == this else unchanged(this) && r != this
      ensures old(count) >= 12 ==> Occupied(r.kind, r.count)
    {
      if count < 48 {
        InsertElement48(b, c);
        r := this;
      } else {
        var newNode := GrowNode48();
        r := newNode.InsertNode256(b, c);
      }
    }

    method InsertElement48(b: byte, c: Ref)
      requires kind == Node48 && Layout() && b !in kids && c != Null && count < 48
      modifies this`childIndex, this`child, this`count, this`kids
      ensures Layout() && kids == old(kids)[b := c] && count == old(count) + 1
    {
      var pos := FindFree();
      InsertIndexed(childIndex, child, count, kids, Null, b, c, pos);
      child := child[pos := c];
      childIndex := childIndex[b := pos];
      count := count + 1;
      kids := kids[b := c];
    }

    /** A free child slot: the next one if it is free, else the first. */
    method FindFree() returns (pos: nat)
      requires kind == Node48 && Layout() && count < 48
      ensures pos < 48 && child[pos] == Null
    {
      pos := count;
      if child[pos] != Null {
        FreeSlot(childIndex, child, count, kids, Null);
        ghost var free :| 0 <= free < 48 && child[free] == Null;
        pos := 0;
        while child[pos] != Null
          invariant pos <= free
          decreases free - pos
        {
          pos := pos + 1;
        }
      }
    }

    method GrowNode48() returns (newNode: Node)
      requires kind == Node48 && Layout()
      ensures Copied(Node256, newNode)
    {
      newNode := new Node(Node256);
      var ch := SpreadChildren(newNode.child);
      newNode.child, newNode.count := ch, count;
      CopyPrefix(newNode);
      newNode.kids := kids;
    }

    /** The children of a 48-way node, each in the slot of its key byte. */
    method SpreadChildren(ch0: seq<Ref>) returns (ch: seq<Ref>)
      requires kind == Node48 && Layout()
      requires |ch0| == 256 && forall i | 0 <= i < 256 :: ch0[i] == Null
      ensures Direct(ch, count, kids, Null)
    {
      ch := ch0;
      for i := 0 to 256
        invariant |ch| == 256
        invariant forall j: byte | 0 <= j < i :: if j in kids then ch[j] == kids[j] else ch[j] == Null
        invariant forall j | i <= j < 256 :: ch[j] == Null
      {
        if childIndex[i] != EMPTY {
          ch := ch[i := child[childIndex[i]]];
        }
      }
    }

    method InsertNode256(b: byte, c: Ref) returns (r: Node)
      requires kind == Node256 && Layout() && b !in kids && c != Null
      modifies this`child, this`count, this`kids
      ensures Added(b, c, r) && r == this
      ensures old(count) >= 37 ==> Occupied(kind, count)
    {
      InsertDirect(child, count, kids, Null, b, c);
      count := count + 1;
      child := child[b := c];
      kids := kids[b := c];
      CountBound(kids);
      r := this;
    }

    /** The dispatch on the node kind at the end of insert. */
    method InsertInto(b: byte, c: Ref) returns (r: Node)
      requires Stored() && Occupied(kind, count) && b !in kids && c != Null
      modifies this`key, this`childIndex, this`child, this`count, this`bytes, this`kids
      ensures (r == this || fresh(r)) && r.Stored() && Occupied(r.kind, r.count)
      ensures r.kids == old(kids)[b := c] && r.Path() == old(Path())
    {
      Unlock();
      match kind
      case Node4 => r := InsertNode4(b, c);
      case Node16 => r := InsertNode16(b, c);
      case Node48 => r := InsertNode48(b, c);
      case Node256 => r := InsertNode256(b, c);
    }

    // ---------------------------------------------------------------- removing a child

    /** What taking out child `b` makes of this node: it, or the smaller node `r` in its place. */
    twostate predicate Removed(b: byte, new r: Node)
      reads this, r
    {
      && (r == this || fresh(r))
      && r.Layout()
      && r.kids == old(kids) - {b}
      && r.count == old(count) - 1
      && old(prefixLength <= |prefix|) && r.Path() == old(Path())
    }

    /** The first half of eraseNode4. */
    method EraseElement4(b: byte, pos: nat)
      requires kind == Node4 && Layout() && pos < count && key[pos] == b
      modifies this`key, this`child, this`count, this`kids
      ensures Layout() && kids == old(kids) - {b} && count == old(count) - 1
    {
      var k, ch := CloseGap4(pos);
      key, child := k, ch;
      count := count - 1;
      kids := kids - {b};
    }

    method CloseGap4(pos: nat) returns (k: seq<byte>, ch: seq<Ref>)
      requires kind == Node4 && Layout() && pos < count
      ensures |k| == 4 && Sorted(k, ch, count - 1, kids - {key[pos]})
    {
      k := CloseGap(key, count, pos);
      ch := CloseGap(child, count, pos);
      EraseSorted(key, k, child, ch, count, kids, pos);
    }

    method EraseNode16(b: byte, pos: int) returns (r: Node)
      requires kind == Node16 && Layout() && b in kids && IsSlot(b, pos)
      modifies this`key, this`child, this`count, this`bytes, this`kids
      ensures Removed(b, r) && (r != this <==> old(count) == 4)
      ensures old(count) >= 4 ==> Occupied(r.kind, r.count)
    {
      FlipKeepsOrder(bytes[pos], b);
      EraseElement16(b, pos);
      if count == 3 {
        r := ShrinkNode16();
      } else {
        r := this;
      }
    }

    method EraseElement16(b: byte, pos: nat)
      requires kind == Node16 && Layout() && pos < count && bytes[pos] == b
      modifies this`key, this`child, this`count, this`bytes, this`kids
      ensures Layout() && kids == old(kids) - {b} && count == old(count) - 1
    {
      var k, ch, bs := CloseGap16(pos);
      key, child, bytes := k, ch, bs;
      count := count - 1;
      kids := kids - {b};
    }

    method CloseGap16(pos: nat) returns (k: seq<byte>, ch: seq<Ref>, ghost bs: seq<byte>)
      requires kind == Node16 && Layout() && pos < count
      ensures |k| == 16 && Flips(k, bs) && Sorted(bs, ch, count - 1, kids - {bytes[pos]})
    {
      k := CloseGap(key, count, pos);
      ch := CloseGap(child, count, pos);
      bs := FlipsClosed(key, bytes, k, count, pos);
      EraseSorted(bytes, bs, child, ch, count, kids, pos);
    }

    method ShrinkNode16() returns (newNode: Node)
      requires kind == Node16 && Layout() && count == 3
      ensures Copied(Node4, newNode)
    {
      newNode := new Node(Node4);
      newNode.count := count;
      CopyPrefix(newNode);
      var k, ch := CopyChildren3(newNode.child);
      newNode.key, newNode.child, newNode.kids := k, ch, kids;
    }

    method CopyChildren3(ch0: seq<Ref>) returns (k: seq<byte>, ch: seq<Ref>)
      requires kind == Node16 && Layout() && count == 3 && |ch0| == 4
      ensures |k| == 4 && Sorted(k, ch, 3, kids)
    {
      k := UnflipKeys();
      ch := Memcpy(ch0, 0, child, 0, 4);
      CopySorted(bytes, child, k, ch, 3, kids);
    }

    /** The key array of the new 4-way node; its fourth entry is a stale one. */
    method UnflipKeys() returns (k: seq<byte>)
      requires kind == Node16 && Layout()
      ensures |k| == 4 && forall i | 0 <= i < 4 :: k[i] == bytes[i]
    {
      k := seq(4, _ => 0);
      for i := 0 to 4
        invariant |k| == 4 && forall j | 0 <= j < i :: k[j] == bytes[j]
      {
        FlipKeepsOrder(bytes[i], bytes[i]);
        k := k[i := Flip(key[i])];
      }
    }

    method EraseElement48(b: byte)
      requires kind == Node48 && Layout() && b in kids
      modifies this`childIndex, this`child, this`count, this`kids
      ensures Layout() && kids == old(kids) - {b} && count == old(count) - 1
    {
      EraseIndexed(childIndex, child, count, kids, Null, b);
      child := child[childIndex[b] := Null];
      childIndex := childIndex[b := EMPTY];
      count := count - 1;
      kids := kids - {b};
    }

    method EraseNode48(b: byte) returns (r: Node)
      requires kind == Node48 && Layout() && b in kids
      modifies this`childIndex, this`child, this`count, this`kids
      ensures Removed(b, r) && (r != this <==> old(count) == 13)
      ensures 13 <= old(count) <= 48 ==> Occupied(r.kind, r.count)
    {
      EraseElement48(b);
      if count == 12 {
        r := ShrinkNode48();
      } else {
        r := this;
      }
    }

    method ShrinkNode48() returns (newNode: Node)
      requires kind == Node48 && Layout() && count == 12
      ensures Copied(Node16, newNode)
    {
      newNode := new Node(Node16);
      CopyPrefix(newNode);
      var k, bs, ch, n := PackSorted(newNode.key, newNode.bytes, newNode.child);
      newNode.key, newNode.bytes, newNode.child, newNode.count, newNode.kids := k, bs, ch, n, kids;
    }

    /** The children of a 48-way node in ascending order of key byte, stored into the arrays of a 16-way node. */
    method PackSorted(k0: seq<byte>, ghost bs0: seq<byte>, ch0: seq<Ref>)
      returns (k: seq<byte>, ghost bs: seq<byte>, ch: seq<Ref>, n: nat)
      requires kind == Node48 && Layout() && count == 12
      requires |k0| == |ch0| == 16 && Flips(k0, bs0)
      ensures n == count && |k| == 16 && Flips(k, bs) && Sorted(bs, ch, n, kids)
    {
      k, bs, ch, n := k0, bs0, ch0, 0;
      KidsBelowEnds(kids);
      for b := 0 to 256
        invariant |k| == 16 && Flips(k, bs) && Sorted(bs, ch, n, KidsBelow(kids, b))
      {
        KidsBelowStep(kids, b);
        if childIndex[b] != EMPTY {
          AppendSorted(bs, ch, n, kids, b);
          k, bs := k[n := Flip(b)], bs[n := b];
          ch := ch[n := child[childIndex[b]]];
          n := n + 1;
        }
      }
    }

    method EraseNode256(b: byte) returns (r: Node)
      requires kind == Node256 && Layout() && b in kids
      modifies this`child, this`count, this`kids
      ensures Removed(b, r) && (r != this <==> old(count) == 38)
      ensures 38 <= old(count) <= 256 ==> Occupied(r.kind, r.count)
    {
      EraseDirect(child, count, kids, Null, b);
      child := child[b := Null];
      count := count - 1;
      kids := kids - {b};
      if count == 37 {
        r := ShrinkNode256();
      } else {
        r := this;
      }
    }

    method ShrinkNode256() returns (newNode: Node)
      requires kind == Node256 && Layout() && count == 37
      ensures Copied(Node48, newNode)
    {
      newNode := new Node(Node48);
      CopyPrefix(newNode);
      var index, ch, n := PackIndexed(newNode.childIndex, newNode.child);
      newNode.childIndex, newNode.child, newNode.count, newNode.kids := index, ch, n, kids;
    }

    /** The children of a 256-way node, packed into the slots of a 48-way node. */
    method PackIndexed(index0: seq<nat>, ch0: seq<Ref>) returns (index: seq<nat>, ch: seq<Ref>, n: nat)
      requires kind == Node256 && Layout() && count == 37
      requires |index0| == 256 && |ch0| == 48
      requires (forall i | 0 <= i < 256 :: index0[i] == EMPTY) && (forall i | 0 <= i < 48 :: ch0[i] == Null)
      ensures n == count && Indexed(index, ch, n, kids, Null)
    {
      index, ch, n := index0, ch0, 0;
      KidsBelowEnds(kids);
      for b := 0 to 256
        invariant Indexed(index, ch, n, KidsBelow(kids, b), Null)
        invariant forall i | n <= i < 48 :: ch[i] == Null
      {
        KidsBelowStep(kids, b);
        if child[b] != Null {
          InsertIndexed(index, ch, n, KidsBelow(kids, b), Null, b, child[b], n);
          index := index[b := n];
          ch := ch[n := child[b]];
          n := n + 1;
        }
      }
    }

    /** The dispatch on the kind of a node with more than four slots in erase. */
    method RemoveLarge(b: byte, slot: int) returns (r: Node)
      requires kind != Node4 && Stored() && Occupied(kind, count) && b in kids && SlotOf(b, slot)
      modifies this`key, this`childIndex, this`child, this`count, this`bytes, this`kids
      ensures (r == this || fresh(r)) && r.Stored() && Occupied(r.kind, r.count)
      ensures r.kids == old(kids) - {b} && r.Path() == old(Path())
    {
      Unlock();
      match kind
      case Node16 =>
        assert Looked(0);
        r := EraseNode16(b, slot);
      case Node48 => r := EraseNode48(b);
      case Node256 => r := EraseNode256(b);
    }

    /** The first half of eraseNode4; the second half is ArtTree.Collapse. */
    method RemoveSmall(b: byte, slot: int)
      requires kind == Node4 && Stored() && b in kids && SlotOf(b, slot)
      modifies this`key, this`child, this`count, this`kids
      ensures Stored() && kids == old(kids) - {b} && count == old(count) - 1
    {
      Unlock();
      assert Looked(0);
      EraseElement4(b, slot);
    }

    /** The child left in a one-way node. */
    method OnlyChild() returns (c: byte, r: Ref)
      requires kind == Node4 && Stored() && count == 1
      ensures kids == map[c := r]
    {
      Unlock();
      c, r := key[0], child[0];
      assert kids.Keys == {c};
    }

    // ---------------------------------------------------------------- first and last child

    /** The child with the least key byte. */
    method FirstChild() returns (ghost b: byte, r: Ref)
      requires Stored() && count > 0
      ensures b in kids && r == kids[b] && forall c | c in kids :: b <= c
    {
      Unlock();
      match kind
      case Node4 => b, r := key[0], child[0];
      case Node16 => b, r := bytes[0], child[0];
      case Node48 =>
        var pos := FirstIndexed();
        b, r := pos, child[childIndex[pos]];
      case Node256 =>
        var pos := FirstDirect();
        b, r := pos, child[pos];
    }

    method FirstIndexed() returns (pos: byte)
      requires kind == Node48 && Layout() && count > 0
      ensures pos in kids && forall c | c in kids :: pos <= c
    {
      ghost var e :| e in kids.Keys;
      pos := 0;
      while childIndex[pos] == EMPTY
        invariant pos <= e && forall c | c in kids :: pos <= c
        decreases e - pos
      {
        pos := pos + 1;
      }
    }

    method FirstDirect() returns (pos: byte)
      requires kind == Node256 && Layout() && count > 0
      ensures pos in kids && forall c | c in kids :: pos <= c
    {
      ghost var e :| e in kids.Keys;
      pos := 0;
      while child[pos] == Null
        invariant pos <= e && forall c | c in kids :: pos <= c
        decreases e - pos
      {
        pos := pos + 1;
      }
    }

    /** The child with the greatest key byte. */
    method LastChild() returns (ghost b: byte, r: Ref)
      requires Stored() && count > 0
      ensures b in kids && r == kids[b] && forall c | c in kids :: c <= b
    {
      Unlock();
      match kind
      case Node4 => b, r := key[count - 1], child[count - 1];
      case Node16 => b, r := bytes[count - 1], child[count - 1];
      case Node48 =>
        var pos := LastIndexed();
        b, r := pos, child[childIndex[pos]];
      case Node256 =>
        var pos := LastDirect();
        b, r := pos, child[pos];
    }

    method LastIndexed() returns (pos: byte)
      requires kind == Node48 && Layout() && count > 0
      ensures pos in kids && forall c | c in kids :: c <= pos
    {
      ghost var e :| e in kids.Keys;
      pos := 255;
      while childIndex[pos] == EMPTY
        invariant e <= pos && forall c | c in kids :: c <= pos
        decreases pos - e
      {
        pos := pos - 1;
      }
    }

    method LastDirect() returns (pos: byte)
      requires kind == Node256 && Layout() && count > 0
      ensures pos in kids && forall c | c in kids :: c <= pos
    {
      ghost var e :| e in kids.Keys;
      pos := 255;
      while child[pos] == Null
        invariant e <= pos && forall c | c in kids :: c <= pos
        decreases pos - e
      {
        pos := pos - 1;
      }
    }
  }

  /** The children with a key byte less than `b`. */
  ghost function KidsBelow<T>(kids: map<byte, T>, b: int): map<byte, T> {
    map e | e in kids && e < b :: kids[e]
  }

  lemma KidsBelowStep<T>(kids: map<byte, T>, b: byte)
    ensures b in kids ==> KidsBelow(kids, b + 1) == KidsBelow(kids, b)[b := kids[b]]
    ensures b in kids ==> |KidsBelow(kids, b)| < |kids|
    ensures b !in kids ==> KidsBelow(kids, b + 1) == KidsBelow(kids, b)
  {
    if b in kids {
      assert KidsBelow(kids, b).Keys <= kids.Keys - {b};
      SubsetSize(KidsBelow(kids, b).Keys, kids.Keys - {b});
    }
  }

  lemma KidsBelowEnds<T>(kids: map<byte, T>)
    ensures KidsBelow(kids, 0) == map[] && KidsBelow(kids, 256) == kids
  {
  }

  lemma AppendSorted<T>(bs: seq<byte>, ch: seq<T>, n: nat, kids: map<byte, T>, b: byte)
    requires Sorted(bs, ch, n, KidsBelow(kids, b)) && n < |bs| && b in kids
    ensures Sorted(bs[n := b], ch[n := kids[b]], n + 1, KidsBelow(kids, b)[b := kids[b]])
  {
    InsertSorted(bs, bs[n := b], ch, ch[n := kids[b]], n, KidsBelow(kids, b), b, kids[b], n);
  }

  lemma FlipsClosed(key: seq<byte>, bytes: seq<byte>, r: seq<byte>, count: nat, pos: nat) returns (rb: seq<byte>)
    requires Flips(key, bytes) && Closed(key, r, count, pos)
    requires forall i | count - 1 <= i < |key| :: r[i] == key[i]
    ensures Flips(r, rb) && Closed(bytes, rb, count, pos)
  {
    rb := bytes[..pos] + bytes[pos + 1..count] + bytes[count - 1..];
  }

  function Min(a: nat, b: nat): nat {
    if a < b then a else b
  }

  /** The first of the first `count` lanes that holds `b`, or -1. */
  method ScanFor(key: seq<byte>, count: nat, b: byte) returns (i: int)
    requires count <= |key|
    ensures -1 <= i < count
    ensures i >= 0 ==> key[i] == b
    ensures i == -1 ==> forall j | 0 <= j < count :: key[j] != b
  {
    for k := 0 to count
      invariant forall j | 0 <= j < k :: key[j] != b
    {
      if key[k] == b {
        return k;
      }
    }
    return -1;
  }

  lemma SortedFind<T>(key: seq<byte>, child: seq<T>, count: nat, kids: map<byte, T>, b: byte, i: int)
    requires Sorted(key, child, count, kids) && -1 <= i < count
    requires i >= 0 ==> key[i] == b
    requires i == -1 ==> forall j | 0 <= j < count :: key[j] != b
    ensures i >= 0 <==> b in kids
    ensures i >= 0 ==> kids[b] == child[i]
  {
  }

  lemma FlippedFind<T>(key: seq<byte>, bytes: seq<byte>, child: seq<T>, count: nat, kids: map<byte, T>, b: byte, i: int)
    requires Flips(key, bytes) && Sorted(bytes, child, count, kids) && -1 <= i < count
    requires i >= 0 ==> key[i] == Flip(b)
    requires i == -1 ==> forall j | 0 <= j < count :: key[j] != Flip(b)
    ensures i >= 0 <==> b in kids
    ensures i >= 0 ==> kids[b] == child[i] && Flip(key[i]) == b
  {
    forall j | 0 <= j < count
      ensures key[j] == Flip(b) <==> bytes[j] == b
    {
      FlipKeepsOrder(bytes[j], b);
    }
    SortedFind(bytes, child, count, kids, b, i);
  }

  lemma NotAmong<T>(key: seq<byte>, child: seq<T>, count: nat, kids: map<byte, T>, b: byte)
    requires Sorted(key, child, count, kids) && b !in kids
    ensures forall i | 0 <= i < count :: key[i] != b
  {
  }

  /** The signed comparison of flipped bytes finds the unsigned insertion point. */
  lemma FlippedInsertsAt<T>(key: seq<byte>, bytes: seq<byte>, child: seq<T>, count: nat, kids: map<byte, T>,
                            b: byte, pos: nat)
    requires Flips(key, bytes) && Sorted(bytes, child, count, kids) && b !in kids && pos <= count
    requires forall i | 0 <= i < pos :: !(Signed(Flip(b)) < Signed(key[i]))
    requires pos < count ==> Signed(Flip(b)) < Signed(key[pos])
    ensures InsertsAt(bytes, count, b, pos)
  {
    NotAmong(bytes, child, count, kids, b);
    forall i | 0 <= i < count
      ensures Signed(Flip(b)) < Signed(key[i]) <==> b < bytes[i]
    {
      FlipKeepsOrder(b, bytes[i]);
    }
  }

  lemma FlipsOpened(key: seq<byte>, bytes: seq<byte>, r: seq<byte>, count: nat, pos: nat, b: byte)
    returns (rb: seq<byte>)
    requires Flips(key, bytes) && GapOpened(key, r, count, pos, Flip(b))
    requires forall i | count < i < |key| :: r[i] == key[i]
    ensures Flips(r, rb) && GapOpened(bytes, rb, count, pos, b)
  {
    rb := bytes[..pos] + [b] + bytes[pos..count] + bytes[count + 1..];
  }

  /** The children of a full 16-way node, moved to a 48-way node. */
  lemma GrowIndexed<T>(key: seq<byte>, child: seq<T>, kids: map<byte, T>, index: seq<nat>, rc: seq<T>, none: T)
    requires |key| == 16 && Sorted(key, child, 16, kids) && forall b | b in kids :: kids[b] != none
    requires |index| == 256 && |rc| == 48 && (forall i | 0 <= i < 16 :: rc[i] == child[i])
    requires forall i | 16 <= i < 48 :: rc[i] == none
    requires forall j | 0 <= j < 16 :: index[key[j]] == j
    requires forall e: byte :: index[e] == EMPTY || (index[e] < 16 && key[index[e]] == e)
    ensures Indexed(index, rc, 16, kids, none)
  {
    forall b: byte
      ensures b in kids <==> index[b] != EMPTY
    {
      if b in kids {
        var i :| 0 <= i < 16 && key[i] == b;
      }
    }
    forall i | 0 <= i < 48 && rc[i] != none
      ensures exists b :: b in kids.Keys && index[b] == i
    {
      assert index[key[i]] == i;
    }
  }

  /** A node has at most 256 children. */
  lemma CountBound<T>(kids: map<byte, T>)
    ensures |kids| <= 256
  {
    SubsetSize(kids.Keys, AllBytes(256));
  }

  ghost function AllBytes(n: nat): (s: set<byte>)
    requires n <= 256
    ensures |s| == n && forall b: byte :: b in s <==> b < n
  {
    if n == 0 then {} else AllBytes(n - 1) + {n - 1}
  }
}
