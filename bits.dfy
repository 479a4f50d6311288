/** Fixed-width unsigned integers and the two helpers of Go's math/bits
    package that the table relies on: powers of two and bits.Len. */
module Bits {

  const TwoTo32: int := 0x1_0000_0000
  const TwoTo64: int := 0x1_0000_0000_0000_0000

  type uint32 = x: int | 0 <= x < TwoTo32
  type uint64 = x: int | 0 <= x < TwoTo64

  function Pow2(n: nat): (r: nat)
    ensures r >= 1
  {
    if n == 0 then 1 else 2 * Pow2(n - 1)
  }

  lemma {:induction false} Pow2Add(a: nat, b: nat)
    ensures Pow2(a + b) == Pow2(a) * Pow2(b)
  {
    if a > 0 {
      Pow2Add(a - 1, b);
      assert Pow2(a + b) == 2 * Pow2(a - 1 + b);
    }
  }

  lemma {:induction false} Pow2Monotone(a: nat, b: nat)
    requires a <= b
    ensures Pow2(a) <= Pow2(b)
  {
    if a < b {
      Pow2Monotone(a, b - 1);
    }
  }

  /** The powers of two that bound the table's geometry. */
  lemma Pow2Of31And32()
    ensures Pow2(31) == 0x8000_0000 && Pow2(32) == TwoTo32
  {
    var p4, p8, p16 := Pow2(4), Pow2(8), Pow2(16);
    assert p4 == 16 by {
      assert Pow2(1) == 2;
      assert Pow2(2) == 4;
      assert Pow2(3) == 8;
    }
    assert p8 == 256 by {
      Pow2Add(4, 4);
    }
    assert p16 == 65536 by {
      Pow2Add(8, 8);
    }
    assert Pow2(32) == TwoTo32 by {
      Pow2Add(16, 16);
    }
    assert Pow2(32) == 2 * Pow2(31);
  }

  /** Shifts that the smallest tables use. */
  lemma Pow2Of61To64()
    ensures Pow2(61) == 0x2000_0000_0000_0000 && Pow2(62) == 0x4000_0000_0000_0000
    ensures Pow2(63) == 0x8000_0000_0000_0000 && Pow2(64) == TwoTo64
  {
    Pow2Of31And32();
    Pow2Add(32, 32);
    assert Pow2(64) == 2 * Pow2(63) == 4 * Pow2(62) == 8 * Pow2(61);
  }

  /** Go's bits.Len (and bits.Len32 on 32-bit arguments): the number of bits
      needed to write x, zero for x == 0 only, and never more than x. */
  function BitLen(x: nat): (r: nat)
    ensures x == 0 <==> r == 0
    ensures r <= x
  {
    if x == 0 then 0 else 1 + BitLen(x / 2)
  }

  /** BitLen(x) bits suffice for x, and one fewer do not. */
  lemma {:induction false} BitLenBounds(x: nat)
    ensures x < Pow2(BitLen(x))
    ensures BitLen(x) > 0 ==> Pow2(BitLen(x) - 1) <= x
    ensures x == 0 <==> BitLen(x) == 0
  {
    if x > 0 {
      BitLenBounds(x / 2);
    }
  }

  /** BitLen is the unique n with 2^(n-1) <= x < 2^n. */
  lemma BitLenUnique(x: nat, n: nat)
    requires x < Pow2(n)
    requires n > 0 ==> Pow2(n - 1) <= x
    ensures BitLen(x) == n
  {
    var m := BitLen(x);
    BitLenBounds(x);
    if m < n {
      Pow2Monotone(m, n - 1);
    } else if m > n {
      Pow2Monotone(n, m - 1);
    }
  }

  lemma {:induction false} BitLenOfPowerOfTwo(b: nat)
    ensures BitLen(Pow2(b)) == b + 1
    ensures BitLen(Pow2(b) - 1) == b
  {
    var p := Pow2(b);
    assert Pow2(b + 1) == 2 * p;
    BitLenUnique(p, b + 1);
    if b > 0 {
      assert p == 2 * Pow2(b - 1);
    }
    BitLenUnique(p - 1, b);
  }

  lemma {:induction false} BitLenMonotone(x: nat, y: nat)
    requires x <= y
    ensures BitLen(x) <= BitLen(y)
  {
    BitLenBounds(x);
    BitLenBounds(y);
    if BitLen(x) > BitLen(y) {
      Pow2Monotone(BitLen(y), BitLen(x) - 1);
    }
  }

  /** A power of two, recognised by halving. */
  predicate IsPowerOfTwo(n: nat)
    decreases n
  {
    n == 1 || (n > 1 && n % 2 == 0 && IsPowerOfTwo(n / 2))
  }

  lemma {:induction false} PowerOfTwoIsPow2(n: nat)
    requires IsPowerOfTwo(n)
    ensures n == Pow2(BitLen(n) - 1)
  {
    BitLenBounds(n);
    if n > 1 {
      PowerOfTwoIsPow2(n / 2);
    }
  }

  lemma {:induction false} Pow2IsPowerOfTwo(b: nat)
    ensures IsPowerOfTwo(Pow2(b))
  {
    if b > 0 {
      Pow2IsPowerOfTwo(b - 1);
      assert Pow2(b) / 2 == Pow2(b - 1);
    }
  }
}
