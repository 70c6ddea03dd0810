// Identifier conventions shared by every part of the model: the sentinel for
// "no such entity", the 32-bit narrowing of the index buffer, and the
// size_t -> int -> size_t round trip the subdivision helper performs.
module Common {

  datatype Option<T> = None | Some(value: T)

  /** The maximum value of a 64-bit size_t; it stands for "no such entity". */
  const INVALID_INDEX: nat := 0xFFFF_FFFF_FFFF_FFFF

  const U32_MODULUS: nat := 0x1_0000_0000

  /** Storing a size_t into an `unsigned int` keeps its low 32 bits. */
  function ToU32(x: nat): (r: nat)
    ensures r < U32_MODULUS
    ensures x < U32_MODULUS ==> r == x
  {
    x % U32_MODULUS
  }

  /** Returning a size_t through a 32-bit `int` and widening it back to size_t:
      the low 32 bits are read as a signed value, which is then sign-extended. */
  function ViaInt(x: nat): (r: nat)
    ensures x < 0x8000_0000 ==> r == x
    ensures 0x8000_0000 <= x < U32_MODULUS ==> r > INVALID_INDEX - U32_MODULUS
  {
    var low := x % U32_MODULUS;
    if low < 0x8000_0000 then low else low + INVALID_INDEX + 1 - U32_MODULUS
  }
}
