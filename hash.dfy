/** Fibonacci (multiplicative) hashing of 64-bit keys into a table of
    2^b home slots. */
module FibonacciHash {
  import opened Bits

  /** An odd multiplier close to 2^64 divided by the golden ratio. */
  const Multiplier: int := 11400714819323198485

  /** The key with its lowest bit set (`k |= 1`). */
  function ForceOdd(k: uint64): (r: uint64)
    ensures r % 2 == 1
    ensures r == k || r == k + 1
    ensures r / 2 == k / 2
  {
    if k % 2 == 0 then k + 1 else k
  }

  /** The product wraps modulo 2^64 (uint64 multiplication); the shift keeps
      its top 64 - shift bits and the result is truncated to 32 bits. The
      hash therefore indexes 2^(64 - shift) home slots, and a shift of 64 or
      more gives 0, as a Go shift does. */
  function Hash(k: uint64, shift: nat): (r: uint32)
    ensures shift <= 64 ==> r < Pow2(64 - shift)
    ensures shift >= 64 ==> r == 0
  {
    var x := ShiftRight(Product(k), shift);
    if shift <= 64 then
      Pow2Of61To64();
      ShiftRightBelow(Product(k), shift, 64 - shift);
      x % TwoTo32
    else
      ShiftRightPastWidth(Product(k), shift);
      x % TwoTo32
  }

  /** Go's `x >> n` on an unsigned value: n halvings. */
  function ShiftRight(x: nat, n: nat): nat
  {
    if n == 0 then x else ShiftRight(x / 2, n - 1)
  }

  /** The 64-bit product the hash is cut from. */
  function Product(k: uint64): uint64
  {
    ForceOdd(k) * Multiplier % TwoTo64
  }

  /** Keys that differ only in their lowest bit share a hash. */
  lemma HashIgnoresLowBit(k: uint64, j: uint64, shift: nat)
    requires k / 2 == j / 2
    ensures Hash(k, shift) == Hash(j, shift)
  {
    assert ForceOdd(k) == ForceOdd(j);
  }

  /** Shifting a value below 2^(n + m) right by n leaves it below 2^m. */
  lemma {:induction false} ShiftRightBelow(x: nat, n: nat, m: nat)
    requires x < Pow2(n + m)
    ensures ShiftRight(x, n) < Pow2(m)
  {
    if n > 0 {
      assert Pow2(n + m) == 2 * Pow2(n - 1 + m);
      ShiftRightBelow(x / 2, n - 1, m);
    }
  }

  /** Shifting right by n divides by 2^n, rounding down: a value between
      c * 2^n and (c + 1) * 2^n shifts to c. */
  lemma {:induction false} ShiftRightExact(x: nat, n: nat, c: nat)
    requires c * Pow2(n) <= x < (c + 1) * Pow2(n)
    ensures ShiftRight(x, n) == c
  {
    if n > 0 {
      var p := Pow2(n - 1);
      assert c * Pow2(n) == 2 * (c * p);
      assert (c + 1) * Pow2(n) == 2 * ((c + 1) * p);
      ShiftRightExact(x / 2, n - 1, c);
    }
  }

  /** The hash is the product's top bits: c when the product lies between
      c * 2^shift and (c + 1) * 2^shift. */
  lemma HashIs(k: uint64, shift: nat, c: nat)
    requires c < TwoTo32 && c * Pow2(shift) <= Product(k) < (c + 1) * Pow2(shift)
    ensures Hash(k, shift) == c
  {
    ShiftRightExact(Product(k), shift, c);
    assert Hash(k, shift) == ShiftRight(Product(k), shift) % TwoTo32;
  }

  /** Shifting right by 64 or more leaves nothing of a 64-bit value. */
  lemma ShiftRightPastWidth(x: uint64, n: nat)
    requires n >= 64
    ensures ShiftRight(x, n) == 0
  {
    Pow2Of61To64();
    Pow2Monotone(64, n);
    ShiftRightBelow(x, n, 0);
  }
}
