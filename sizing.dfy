/** The table's geometry: the number of home slots, the hash shift that maps
    keys onto them, the probe-distance cap and the size chosen at
    construction. */
module Sizing {
  import opened Bits
  import opened FibonacciHash

  /** The largest number of home slots the uint32 `size` field can reach by
      doubling; doubling it once more wraps to 0. */
  const MaxSize: nat := 0x8000_0000

  /** The largest capacity hint whose target size is at most MaxSize. */
  const MaxCapacity: int := 0x4000_0000

  /** A size the table can have: a power of two, at least 2, at most MaxSize. */
  predicate ValidSize(size: nat)
  {
    2 <= size <= MaxSize && IsPowerOfTwo(size)
  }

  lemma BitLenOfUint32(x: uint32)
    ensures BitLen(x) <= 32
  {
    Pow2Of31And32();
    BitLenUnique(TwoTo32, 33);
    BitLenMonotone(x, TwoTo32);
    BitLenBounds(x);
    if BitLen(x) == 33 {
      assert false;
    }
  }

  /** `64 - bits.Len32(size - 1)`, the subtraction taken in uint32. */
  function ShiftForSize(size: uint32): (shift: nat)
    ensures 32 <= shift <= 64
  {
    BitLenOfUint32((size - 1) % TwoTo32);
    64 - BitLen((size - 1) % TwoTo32)
  }

  /** The home slot of a key in a table of `size` home slots. */
  function Home(k: uint64, size: uint32): uint32
  {
    Hash(k, ShiftForSize(size))
  }

  /** `max(bits.Len32(size), 4)`: the cap on an entry's probe distance. */
  function MaxDistForSize(size: uint32): (d: uint32)
    ensures 4 <= d <= 32
  {
    BitLenOfUint32(size);
    var desired := BitLen(size);
    if desired < 4 then 4 else desired
  }

  /** The size newRobinHoodMap asks for, 2^Len(2c - 1) with c the capacity
      hint (a hint below 1 counting as 1): the smallest power of two at least
      twice c. It is a valid size. */
  function TargetSize(initialCapacity: int): (size: nat)
    requires initialCapacity <= MaxCapacity
    ensures var c := if initialCapacity < 1 then 1 else initialCapacity;
      && ValidSize(size)
      && size >= 2 * c
      && forall b: nat :: Pow2(b) >= 2 * c ==> size <= Pow2(b)
  {
    var c := if initialCapacity < 1 then 1 else initialCapacity;
    CeilingPowerOfTwo(c);
    Pow2(BitLen(2 * c - 1))
  }

  lemma ValidSizeIsPow2(size: nat)
    requires ValidSize(size)
    ensures 1 <= BitLen(size) - 1 <= 31 && size == Pow2(BitLen(size) - 1)
  {
    PowerOfTwoIsPow2(size);
    var b := BitLen(size) - 1;
    Pow2Of31And32();
    if b > 31 {
      Pow2Monotone(32, b);
    }
  }

  /** For 2^b home slots the shift is 64 - b. */
  lemma {:induction false} ShiftOfPowerOfTwo(b: nat)
    requires 1 <= b <= 31
    ensures Pow2(b) < TwoTo32 && ShiftForSize(Pow2(b)) == 64 - b
  {
    Pow2Of31And32();
    Pow2Monotone(b, 31);
    var p := Pow2(b);
    assert 0 <= p - 1 < TwoTo32;
    assert (p - 1) % TwoTo32 == p - 1;
    BitLenOfPowerOfTwo(b);
  }

  /** Every key's home slot lies in [0, size). */
  lemma HomeBelowSize(k: uint64, size: nat)
    requires ValidSize(size)
    ensures size < TwoTo32 && Home(k, size) < size
  {
    ValidSizeIsPow2(size);
    var b := BitLen(size) - 1;
    ShiftOfPowerOfTwo(b);
  }

  /** For 2^b home slots the distance cap is max(b + 1, 4). */
  lemma {:induction false} MaxDistOfPowerOfTwo(b: nat)
    requires b <= 31
    ensures Pow2(b) < TwoTo32
    ensures MaxDistForSize(Pow2(b)) == if b + 1 < 4 then 4 else b + 1
  {
    Pow2Of31And32();
    Pow2Monotone(b, 31);
    BitLenOfPowerOfTwo(b);
  }

  /** The smallest table: two home slots, distance cap 4, six slots in all. */
  lemma SmallestTable()
    ensures MaxDistForSize(2) == 4 && 2 + MaxDistForSize(2) == 6
    ensures ShiftForSize(2) == 63
  {
    Pow2Of31And32();
    BitLenUnique(2, 2);
    BitLenUnique(1, 1);
  }

  /** Doubling a size below MaxSize gives a size. */
  lemma {:induction false} DoubledSizeIsValid(size: nat)
    requires ValidSize(size) && size < MaxSize
    ensures ValidSize(2 * size)
  {
    ValidSizeIsPow2(size);
    var b := BitLen(size) - 1;
    Pow2Of31And32();
    assert b < 31 by {
      if b >= 31 {
        Pow2Monotone(31, b);
      }
    }
    assert 2 * size == Pow2(b + 1);
    Pow2IsPowerOfTwo(b + 1);
    Pow2Monotone(b + 1, 31);
  }

  /** 2^Len(2c - 1) is a valid size, at least 2c, and at most any power of
      two that is at least 2c. */
  lemma {:induction false} CeilingPowerOfTwo(c: int)
    requires 1 <= c <= MaxCapacity
    ensures var l := BitLen(2 * c - 1);
      && ValidSize(Pow2(l))
      && Pow2(l) >= 2 * c
      && forall b: nat :: Pow2(b) >= 2 * c ==> Pow2(l) <= Pow2(b)
  {
    var l := BitLen(2 * c - 1);
    BitLenBounds(2 * c - 1);
    assert 1 <= l <= 31 by {
      Pow2Of31And32();
      if l > 31 {
        Pow2Monotone(31, l - 1);
      }
    }
    assert ValidSize(Pow2(l)) by {
      Pow2IsPowerOfTwo(l);
      Pow2Monotone(1, l);
      Pow2Monotone(l, 31);
      Pow2Of31And32();
    }
    forall b: nat | Pow2(b) >= 2 * c
      ensures Pow2(l) <= Pow2(b)
    {
      if b < l {
        Pow2Monotone(b, l - 1);
      }
      Pow2Monotone(l, b);
    }
  }
}
