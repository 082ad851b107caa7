/** The fixed-width integer arithmetic the triangulator relies on: a 64-bit
    unsigned `size_t` for vector sizes and a 32-bit two's-complement `int` for
    loop counters and vertex indices. */
module Machine {

  /** The largest value of a 32-bit `int`. */
  const INT_MAX: int := 0x7fff_ffff

  /** Number of values of a 32-bit integer. */
  const INT_MODULUS: int := 0x1_0000_0000

  /** Number of values of a 64-bit `size_t`. */
  const SIZE_MODULUS: int := 0x1_0000_0000_0000_0000

  /** `size - k` evaluated in `size_t`: it wraps around below zero. */
  function SizeSub(size: nat, k: nat): (r: nat)
    requires size < SIZE_MODULUS && k < SIZE_MODULUS
    ensures r < SIZE_MODULUS
    ensures k <= size ==> r == size - k
    ensures size < k ==> r == SIZE_MODULUS - (k - size)
  {
    (size - k) % SIZE_MODULUS
  }

  /** The conversion `(int)u` of a `size_t` to a 32-bit `int`: the low 32 bits,
      read as two's complement. */
  function ToInt(u: nat): (r: int)
    ensures -INT_MAX - 1 <= r <= INT_MAX
    ensures (r - u) % INT_MODULUS == 0
    ensures u <= INT_MAX ==> r == u
  {
    var low := u % INT_MODULUS;
    if low <= INT_MAX then low else low - INT_MODULUS
  }

  /** The starting position of the backward scan, `(int)(size - 2)`, is the
      mathematical `size - 2` for every size the 32-bit counter can reach, including
      a vector of one entry, where the unsigned difference wraps to its maximum and
      the conversion brings it back to -1. */
  lemma LastPairStart(size: nat)
    requires 1 <= size <= INT_MAX + 1
    ensures ToInt(SizeSub(size, 2)) == size - 2
  {
    if size == 1 {
      assert SizeSub(size, 2) == SIZE_MODULUS - 1;
      assert (SIZE_MODULUS - 1) % INT_MODULUS == INT_MODULUS - 1;
    }
  }

  /** The bound `size - 1` of the forward scan wraps to the largest `size_t`
      exactly when the vector is empty, so it is the mathematical `size - 1`
      whenever the vector holds an entry. */
  lemma LastPairBound(size: nat)
    requires size < SIZE_MODULUS
    ensures size == 0 <==> SizeSub(size, 1) == SIZE_MODULUS - 1
    ensures 1 <= size ==> SizeSub(size, 1) == size - 1
  {
  }
}
