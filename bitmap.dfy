/**
 * The bitmap allocator used by the Minix driver (bitmap_first_free and bitmap_set).
 * A bitmap is a byte sequence; bit i is bit i % 8 (least significant first) of byte i / 8,
 * which is the layout a little-endian machine gives to 32-bit bitmap words.
 */
module Bitmap {
  import opened Wrappers

  type byte = bv8

  /** Number of bits in a byte. */
  const BITS: nat := 8

  /** The byte with every bit set: a byte of the bitmap with nothing free in it. */
  const FULL_BYTE: byte := 0xFF

  /** Bit k of byte x. */
  predicate BitOf(x: byte, k: nat)
    requires k < BITS
  {
    (x >> k) & 1 == 1
  }

  /** Bit i of bitmap s is set (resource i is allocated). */
  predicate IsSet(s: seq<byte>, i: nat)
    requires i < |s| * BITS
  {
    BitOf(s[i / BITS], i % BITS)
  }

  /** Every bit of the bitmap is set: nothing can be allocated from it. */
  predicate Full(s: seq<byte>)
  {
    forall i: nat :: i < |s| * BITS ==> IsSet(s, i)
  }

  /** The bitmap with bit i set. */
  function SetBit(s: seq<byte>, i: nat): (r: seq<byte>)
    requires i < |s| * BITS
    ensures |r| == |s|
  {
    s[i / BITS := s[i / BITS] | ((1 as byte) << (i % BITS))]
  }

  /** A byte is full exactly when each of its eight bits is set. */
  lemma FullByteBits(x: byte)
    ensures x == FULL_BYTE <==> forall k: nat :: k < BITS ==> BitOf(x, k)
  {
    if forall k: nat :: k < BITS ==> BitOf(x, k) {
      assert BitOf(x, 0) && BitOf(x, 1) && BitOf(x, 2) && BitOf(x, 3);
      assert BitOf(x, 4) && BitOf(x, 5) && BitOf(x, 6) && BitOf(x, 7);
    }
  }

  /** Or-ing in bit k sets bit k and leaves the other seven bits of the byte as they were. */
  lemma ByteSetBit(x: byte, k: nat, j: nat)
    requires k < BITS && j < BITS
    ensures BitOf(x | ((1 as byte) << k), j) <==> BitOf(x, j) || j == k
  {
  }

  /** Lowest clear bit of a byte that is not full. */
  function LowestClearInByte(x: byte): (k: nat)
    requires x != FULL_BYTE
    ensures k < BITS && !BitOf(x, k)
    ensures forall j: nat :: j < k ==> BitOf(x, j)
  {
    FullByteBits(x);
    if !BitOf(x, 0) then 0
    else if !BitOf(x, 1) then 1
    else if !BitOf(x, 2) then 2
    else if !BitOf(x, 3) then 3
    else if !BitOf(x, 4) then 4
    else if !BitOf(x, 5) then 5
    else if !BitOf(x, 6) then 6
    else 7
  }

  /** Dropping the first byte renumbers every remaining bit down by eight. */
  lemma IsSetTail(s: seq<byte>, i: nat)
    requires |s| > 0 && i < (|s| - 1) * BITS
    ensures IsSet(s[1..], i) <==> IsSet(s, i + BITS)
  {
    assert (i + BITS) / BITS == i / BITS + 1;
    assert (i + BITS) % BITS == i % BITS;
  }

  /**
   * The lowest clear bit of s, or None when the bitmap is full: the contract of
   * bitmap_first_free, which returns BITMAP_FULL in the None case.
   */
  function LowestClear(s: seq<byte>): (r: Option<nat>)
    ensures r.None? <==> Full(s)
    ensures r.Some? ==> r.value < |s| * BITS && !IsSet(s, r.value)
    ensures r.Some? ==> forall i: nat :: i < r.value ==> IsSet(s, i)
  {
    if |s| == 0 then None
    else
      var rest := LowestClear(s[1..]);
      assert forall i: nat :: i < (|s| - 1) * BITS ==> (IsSet(s[1..], i) <==> IsSet(s, i + BITS)) by {
        forall i: nat | i < (|s| - 1) * BITS {
          IsSetTail(s, i);
        }
      }
      FullByteBits(s[0]);
      assert forall i: nat :: i < BITS ==> (IsSet(s, i) <==> BitOf(s[0], i));
      if s[0] == FULL_BYTE then
        assert forall i: nat :: BITS <= i < |s| * BITS ==> (IsSet(s, i) <==> IsSet(s[1..], i - BITS));
        match rest
        case None => None
        case Some(b) => Some(b + BITS)
      else
        Some(LowestClearInByte(s[0]))
  }

  /**
   * bitmap_first_free: scans byte by byte for the first byte that is not full, then bit by
   * bit inside it, and reports the lowest clear bit, or None when there is none.
   */
  method FirstFree(bm: array<byte>) returns (r: Option<nat>)
    ensures r == LowestClear(bm[..])
  {
    var j := 0;
    while j < bm.Length && bm[j] == FULL_BYTE
      invariant 0 <= j <= bm.Length
      invariant forall i: nat :: i < j * BITS ==> IsSet(bm[..], i)
    {
      FullByteBits(bm[j]);
      forall i: nat | i < (j + 1) * BITS
        ensures IsSet(bm[..], i)
      {
        if i >= j * BITS {
          assert i / BITS == j;
        }
      }
      j := j + 1;
    }
    if j == bm.Length {
      return None;
    }
    FullByteBits(bm[j]);
    var k := 0;
    while BitOf(bm[j], k)
      invariant 0 <= k < BITS
      invariant forall m: nat :: m < k ==> BitOf(bm[j], m)
      decreases BITS - k
    {
      k := k + 1;
    }
    var b := j * BITS + k;
    assert b / BITS == j && b % BITS == k;
    assert !IsSet(bm[..], b);
    forall i: nat | i < b
      ensures IsSet(bm[..], i)
    {
      if i >= j * BITS {
        assert i / BITS == j && i % BITS < k;
      }
    }
    r := Some(b);
  }

  /** Setting bit i changes bit i alone. */
  lemma SetBitOnly(s: seq<byte>, i: nat, j: nat)
    requires i < |s| * BITS && j < |s| * BITS
    ensures IsSet(SetBit(s, i), j) <==> IsSet(s, j) || j == i
  {
    if j / BITS == i / BITS {
      ByteSetBit(s[i / BITS], i % BITS, j % BITS);
      assert j % BITS == i % BITS ==> j == i;
    }
  }

  /** The number of set bits below bit k. */
  function CountSet(s: seq<byte>, k: nat): (c: nat)
    requires k <= |s| * BITS
    ensures c <= k
  {
    if k == 0 then 0 else CountSet(s, k - 1) + (if IsSet(s, k - 1) then 1 else 0)
  }

  /** All k bits below k are counted exactly when each of them is set. */
  lemma {:induction false} CountSetAll(s: seq<byte>, k: nat)
    requires k <= |s| * BITS
    ensures CountSet(s, k) == k <==> forall i: nat :: i < k ==> IsSet(s, i)
  {
    if k > 0 {
      CountSetAll(s, k - 1);
    }
  }

  /** A bitmap is full exactly when every one of its |s| * 8 bits is counted as set. */
  lemma FullCount(s: seq<byte>)
    ensures Full(s) <==> CountSet(s, |s| * BITS) == |s| * BITS
  {
    CountSetAll(s, |s| * BITS);
  }

  /** Setting a clear bit b adds one to the count of every prefix that contains it. */
  lemma {:induction false} CountSetBit(s: seq<byte>, b: nat, k: nat)
    requires b < |s| * BITS && !IsSet(s, b) && k <= |s| * BITS
    ensures CountSet(SetBit(s, b), k) == CountSet(s, k) + (if b < k then 1 else 0)
  {
    if k > 0 {
      CountSetBit(s, b, k - 1);
      SetBitOnly(s, b, k - 1);
    }
  }

  /** One allocation from a bitmap that is not full takes exactly one more bit. */
  lemma AllocateCounts(s: seq<byte>)
    requires !Full(s)
    ensures CountSet(SetBit(s, LowestClear(s).value), |s| * BITS) == CountSet(s, |s| * BITS) + 1
  {
    CountSetBit(s, LowestClear(s).value, |s| * BITS);
  }

  /** The bitmap after n allocations, each taking the lowest clear bit while there is one. */
  function AllocateTimes(s: seq<byte>, n: nat): (r: seq<byte>)
    ensures |r| == |s|
    decreases n
  {
    if n == 0 || Full(s) then s else AllocateTimes(SetBit(s, LowestClear(s).value), n - 1)
  }

  /**
   * The allocator runs out exactly on time: a bitmap with f clear bits serves n <= f
   * allocations, each of which finds a clear bit, and after f it reports full.
   */
  lemma {:induction false} AllocateExhausts(s: seq<byte>, n: nat)
    requires n <= |s| * BITS - CountSet(s, |s| * BITS)
    ensures CountSet(AllocateTimes(s, n), |s| * BITS) == CountSet(s, |s| * BITS) + n
    ensures Full(AllocateTimes(s, n)) <==> n == |s| * BITS - CountSet(s, |s| * BITS)
    decreases n
  {
    FullCount(s);
    if n > 0 {
      assert !Full(s);
      AllocateCounts(s);
      var s1 := SetBit(s, LowestClear(s).value);
      assert AllocateTimes(s, n) == AllocateTimes(s1, n - 1);
      AllocateExhausts(s1, n - 1);
    }
  }

  /** bitmap_set: marks bit i allocated, in place. */
  method Set(bm: array<byte>, i: nat)
    requires i < bm.Length * BITS
    modifies bm
    ensures bm[..] == SetBit(old(bm[..]), i)
  {
    bm[i / BITS] := bm[i / BITS] | ((1 as byte) << (i % BITS));
  }
}
