/** Bytes, keys as big-endian byte strings, and the two re-encodings the radix tree applies to them:
    the byte swap of an integer key and the sign flip of a key byte. */
module Bytes {
  type byte = b: int | 0 <= b < 256
  type Key = seq<byte>

  /** The byte stored by a 16-way node for `b`, with the sign bit inverted; see FlipIsXor. */
  function Flip(b: byte): byte {
    (b + 128) % 256
  }

  /** A byte read as a signed 8-bit integer, which is how the SIMD comparison reads it. */
  function Signed(b: byte): int {
    if b < 128 then b else b - 256
  }

  /** On bit patterns, adding 128 modulo 256 is the exclusive-or with the sign bit. */
  lemma FlipIsXor(v: bv8)
    ensures v ^ 128 == v + 128
  {
  }

  /** The reason for the flip: signed order on flipped bytes is unsigned order on the bytes. */
  lemma FlipKeepsOrder(a: byte, b: byte)
    ensures Signed(Flip(a)) < Signed(Flip(b)) <==> a < b
    ensures Flip(Flip(a)) == a
    ensures Flip(a) == Flip(b) <==> a == b
  {
  }

  /** 256 to the power n: the number of keys of n bytes. */
  function Range(n: nat): (r: nat)
    ensures r >= 1
  {
    if n == 0 then 1 else 256 * Range(n - 1)
  }

  /** The n key bytes of an integer key, most significant byte first. */
  function SwapBytes(x: nat, n: nat): (k: Key)
    ensures |k| == n
  {
    if n == 0 then [] else SwapBytes(x / 256, n - 1) + [x % 256]
  }

  /** The integer that a key denotes. */
  function Value(k: Key): nat {
    if |k| == 0 then 0 else 256 * Value(k[..|k| - 1]) + k[|k| - 1]
  }

  /** Swapping the bytes of an integer key loses nothing and reaches every key. */
  lemma {:induction false} SwapBytesRoundTrip(x: nat, n: nat)
    requires x < Range(n)
    ensures Value(SwapBytes(x, n)) == x
  {
    if n > 0 {
      SwapBytesRoundTrip(x / 256, n - 1);
      assert SwapBytes(x, n)[..n - 1] == SwapBytes(x / 256, n - 1);
    }
  }

  lemma {:induction false} ValueRoundTrip(k: Key)
    ensures Value(k) < Range(|k|)
    ensures SwapBytes(Value(k), |k|) == k
  {
    if |k| > 0 {
      ValueRoundTrip(k[..|k| - 1]);
      assert k == k[..|k| - 1] + [k[|k| - 1]];
      assert Value(k) / 256 == Value(k[..|k| - 1]);
    }
  }

  /** Byte-wise lexicographic order on keys of one length. */
  ghost predicate Less(a: Key, b: Key) {
    exists i: nat :: DiffersFirstAt(a, b, i) && a[i] < b[i]
  }

  ghost predicate DiffersFirstAt(a: Key, b: Key, i: nat) {
    i < |a| && i < |b| && (forall j | 0 <= j < i :: a[j] == b[j]) && a[i] != b[i]
  }

  /** Comparing key bytes from the front is comparing the integers. */
  lemma {:induction false} OrderIsNumeric(a: Key, b: Key)
    requires |a| == |b|
    ensures Less(a, b) <==> Value(a) < Value(b)
  {
    if a == b {
    } else {
      var i := FirstDifference(a, b);
      if a[i] < b[i] {
        FirstDifferenceDecides(a, b, i);
      } else {
        FirstDifferenceDecides(b, a, i);
      }
    }
  }

  lemma {:induction false} FirstDifference(a: Key, b: Key) returns (i: nat)
    requires |a| == |b| && a != b
    ensures DiffersFirstAt(a, b, i)
  {
    i := 0;
    while a[i] == b[i]
      invariant i < |a| && forall j | 0 <= j < i :: a[j] == b[j]
      decreases |a| - i
    {
      i := i + 1;
    }
  }

  lemma {:induction false} FirstDifferenceDecides(a: Key, b: Key, i: nat)
    requires |a| == |b| && DiffersFirstAt(a, b, i) && a[i] < b[i]
    ensures Value(a) < Value(b)
  {
    var n := |a| - 1;
    if i == n {
      assert a[..n] == b[..n];
    } else {
      FirstDifferenceDecides(a[..n], b[..n], i);
    }
  }
}
