/** Java's fixed-width integers, the `(byte)` narrowing cast and the integer
    stream of a `java.util.Random` object. */
module JavaTypes {

  /** Java `byte`: a signed two's-complement 8-bit integer. */
  newtype int8 = x: int | -0x80 <= x < 0x80

  /** Java `int`: a signed two's-complement 32-bit integer. */
  newtype int32 = x: int | -0x8000_0000 <= x < 0x8000_0000

  const INT32_MAX: int := 0x7FFF_FFFF

  /** Java's narrowing conversion `(byte) x`: it keeps the low 8 bits of the
      two's-complement representation of `x` and reads them as a signed byte.
      So the result is the one byte value congruent to `x` modulo 256, and a
      value that already fits in a byte is kept as it is. */
  function ByteCast(x: int32): (b: int8)
    ensures (x as int - b as int) % 256 == 0
    ensures -0x80 <= x < 0x80 ==> b as int == x as int
  {
    var low := x as int % 256;
    if low < 0x80 then low as int8 else (low - 256) as int8
  }

  /** The byte congruent to `x` modulo 256 is unique, so any byte with that
      property is `ByteCast(x)`. */
  lemma ByteCastUnique(x: int32, b: int8)
    requires (x as int - b as int) % 256 == 0
    ensures b == ByteCast(x)
  {
  }

  /** Java's `int` addition `x + y`, which wraps around modulo 2^32. Two
      non-negative operands whose true sum exceeds `Integer.MAX_VALUE`
      always wrap to a negative result. */
  function WrapAdd(x: int32, y: int32): (r: int32)
    ensures (r as int - (x as int + y as int)) % 0x1_0000_0000 == 0
    ensures x as int + y as int <= INT32_MAX && -0x8000_0000 <= x as int + y as int ==> r as int == x as int + y as int
    ensures 0 <= x && 0 <= y && x as int + y as int > INT32_MAX ==> r < 0
  {
    var s := x as int + y as int;
    if s > INT32_MAX then (s - 0x1_0000_0000) as int32
    else if s < -0x8000_0000 then (s + 0x1_0000_0000) as int32
    else s as int32
  }

  /** The results of successive `nextInt()` calls on a `java.util.Random`
      object: `values(n)` is the n-th result, and `drawn` counts the results
      taken so far. The generator's own arithmetic is not modelled. */
  class RandomSource {
    const values: nat -> int32
    var drawn: nat

    constructor (values: nat -> int32)
      ensures this.values == values && drawn == 0
    {
      this.values := values;
      drawn := 0;
    }

    /** `random.nextInt()`: the next value of the stream. */
    method NextInt() returns (x: int32)
      modifies this`drawn
      ensures x == values(old(drawn)) && drawn == old(drawn) + 1
    {
      x := values(drawn);
      drawn := drawn + 1;
    }
  }
}
