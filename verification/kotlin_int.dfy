/** Kotlin's fixed-width integer types over Dafny's unbounded integers.

`Int` and `Long` are two's-complement 32- and 64-bit integers, `UInt` and
`ULong` their unsigned counterparts. Conversions between a signed type and its
unsigned counterpart keep the bit pattern; `Int` arithmetic wraps modulo 2^32.
 */
module KotlinInt {

  const TWO_31: int := 0x8000_0000
  const TWO_32: int := 0x1_0000_0000
  const TWO_63: int := 0x8000_0000_0000_0000
  const TWO_64: int := 0x1_0000_0000_0000_0000

  /** Kotlin `Int` (graphene's `Int32`). */
  type int32 = x: int | -0x8000_0000 <= x < 0x8000_0000

  /** Kotlin `Long` (graphene's `Int64`). */
  type int64 = x: int | -0x8000_0000_0000_0000 <= x < 0x8000_0000_0000_0000

  /** Kotlin `UInt` (graphene's `UInt32`). */
  type uint32 = x: int | 0 <= x < 0x1_0000_0000

  /** Kotlin `ULong`. */
  type uint64 = x: int | 0 <= x < 0x1_0000_0000_0000_0000

  /** The `Int` a Kotlin `Int` expression yields for the mathematically exact
      value `x`: the unique 32-bit value congruent to `x` modulo 2^32. */
  function WrapInt32(x: int): (r: int32)
    ensures (r - x) % TWO_32 == 0
    ensures -TWO_31 <= x < TWO_31 ==> r == x
  {
    var m := x % TWO_32;
    if m >= TWO_31 then m - TWO_32 else m
  }

  /** `ULong.toLong()`: the same 64 bits read as a signed value. */
  function ULongToLong(v: uint64): (r: int64)
    ensures (r - v) % TWO_64 == 0
    ensures r == v <==> v < TWO_63
  {
    if v < TWO_63 then v else v - TWO_64
  }

  /** `Long.toULong()`: the unsigned reading of a `Long`'s 64-bit pattern. */
  function LongToULong(v: int64): (r: uint64)
    ensures (r - v) % TWO_64 == 0
    ensures r == v <==> 0 <= v
  {
    if v < 0 then v + TWO_64 else v
  }

  /** `Int.toUInt()`: the unsigned reading of an `Int`'s 32-bit pattern. */
  function IntToUInt(v: int32): (r: uint32)
    ensures (r - v) % TWO_32 == 0
    ensures r == v <==> 0 <= v
  {
    if v < 0 then v + TWO_32 else v
  }

  /** `UInt.toInt()`: the same 32 bits read as a signed value. */
  function UIntToInt(v: uint32): (r: int32)
    ensures (r - v) % TWO_32 == 0
    ensures r == v <==> v < TWO_31
  {
    if v < TWO_31 then v else v - TWO_32
  }

  /** `Long` and `ULong` are in one-to-one correspondence through their 64-bit
      pattern: each conversion inverts the other. */
  lemma LongBitPattern(s: int64, u: uint64)
    ensures LongToULong(s) == u <==> ULongToLong(u) == s
  {
  }

  /** `Int` and `UInt` are in one-to-one correspondence through their 32-bit pattern. */
  lemma IntBitPattern(s: int32, u: uint32)
    ensures IntToUInt(s) == u <==> UIntToInt(u) == s
  {
  }
}
