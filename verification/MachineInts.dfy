/** The fixed-width integers whose limits show in the code's behaviour. */
module MachineInts {
  const UINT32_MODULUS := 0x1_0000_0000
  const SIZE_MODULUS := 0x1_0000_0000_0000_0000
  const ULONG_MAX := 0xFFFF_FFFF_FFFF_FFFF

  type uint8 = x: int | 0 <= x < 256
  type uint32 = x: int | 0 <= x < UINT32_MODULUS
  type size_t = x: int | 0 <= x < SIZE_MODULUS

  /** A 64-bit pattern read back as a signed `long long`. */
  function Signed64(x: int): int {
    var m := x % SIZE_MODULUS;
    if m < 0x8000_0000_0000_0000 then m else m - SIZE_MODULUS
  }

  /** A wider number stored in an `int`. */
  function Signed32(x: int): int {
    var m := x % UINT32_MODULUS;
    if m < 0x8000_0000 then m else m - UINT32_MODULUS
  }

  /** Each is the one number of the signed range that is the same modulo the modulus. */
  lemma Signed64Range(x: int)
    ensures -0x8000_0000_0000_0000 <= Signed64(x) < 0x8000_0000_0000_0000
    ensures Signed64(x) % SIZE_MODULUS == x % SIZE_MODULUS
  {
  }

  lemma Signed32Range(x: int)
    ensures -0x8000_0000 <= Signed32(x) < 0x8000_0000
    ensures Signed32(x) % UINT32_MODULUS == x % UINT32_MODULUS
  {
  }

  lemma SignedSum(a: int, b: int)
    ensures Signed64(Signed64(a) + b) == Signed64(a + b)
  {
  }
}
