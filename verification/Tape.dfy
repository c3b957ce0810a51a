/** The bump allocator behind the overflow buckets of the monotone table: segments of many places, handed out in
    order. */
module Tape {
  class Tape {
    var segments: nat
    var index: nat
    var size: nat
    ghost var handedOut: set<(nat, nat)>

    /** Before the first allocation `index` and `size` may be anything. */
    ghost predicate Valid()
      reads this
    {
      && (segments == 0 ==> handedOut == {}) && (segments > 0 ==> index <= size)
      && forall p | p in handedOut :: p.0 + 1 < segments || (p.0 + 1 == segments && p.1 < index)
    }

    constructor (index: nat, size: nat)
      ensures Valid() && handedOut == {}
    {
      segments, this.index, this.size, handedOut := 0, index, size, {};
    }

    /** A place, by its segment and its number there, that has not been handed out before. */
    method Alloc(nextSize: nat) returns (segment: nat, place: nat)
      requires Valid() && nextSize > 0
      modifies this
      ensures Valid() && (segment, place) !in old(handedOut) && handedOut == old(handedOut) + {(segment, place)}
      ensures segment + 1 == segments && place < size && (size == old(size) || (size == nextSize && place == 0))
    {
      if index == size || segments == 0 {
        segments, index, size := segments + 1, 0, nextSize;
      }
      segment, place := segments - 1, index;
      index := index + 1;
      handedOut := handedOut + {(segment, place)};
    }
  }
}
